/** POSIX path resolution as the scaffolder uses it: `relative('/', name)`
    turns a name the compiler asks for into a key of the virtual file store,
    and the store itself addresses files by the same root-relative keys.

    A name is split at '/', resolved against the working directory when it
    is not absolute, and normalised: empty and "." segments vanish, ".."
    drops the previous segment (and stays at the root when there is none).
    The key is the remaining segments joined by '/', without a leading '/'. */
module Paths {

  /** Splits at every '/', keeping empty segments. */
  function Split(s: string): (segs: seq<string>)
    ensures |segs| >= 1
    ensures forall j :: 0 <= j < |segs| ==> '/' !in segs[j]
  {
    SplitFrom(s, [])
  }

  function SplitFrom(s: string, cur: string): (segs: seq<string>)
    ensures |segs| >= 1
    ensures '/' !in cur ==> forall j :: 0 <= j < |segs| ==> '/' !in segs[j]
  {
    if s == [] then [cur]
    else if s[0] == '/' then [cur] + SplitFrom(s[1..], [])
    else SplitFrom(s[1..], cur + [s[0]])
  }

  function Join(segs: seq<string>): string {
    if |segs| == 0 then []
    else if |segs| == 1 then segs[0]
    else segs[0] + "/" + Join(segs[1..])
  }

  /** A segment that normalisation keeps. */
  predicate PlainSegment(seg: string) {
    seg != [] && seg != "." && seg != ".." && '/' !in seg
  }

  predicate Canonical(segs: seq<string>) {
    forall j :: 0 <= j < |segs| ==> PlainSegment(segs[j])
  }

  /** A key of the virtual file store: the root itself, or plain segments
      joined by single slashes. */
  predicate IsKey(k: string) {
    k == [] || Canonical(Split(k))
  }

  /** Normalises the segments `segs`, appending to the already normal `acc`. */
  function Normalize(segs: seq<string>, acc: seq<string>): (r: seq<string>)
    requires forall j :: 0 <= j < |segs| ==> '/' !in segs[j]
    requires Canonical(acc)
    ensures Canonical(r)
  {
    if segs == [] then acc
    else if segs[0] == [] || segs[0] == "." then Normalize(segs[1..], acc)
    else if segs[0] == ".." then Normalize(segs[1..], if acc == [] then [] else acc[..|acc| - 1])
    else Normalize(segs[1..], acc + [segs[0]])
  }

  /** `path.resolve`: a name that does not start with '/' is taken relative
      to the working directory `cwd`. */
  function Resolve(cwd: string, name: string): string {
    if |name| > 0 && name[0] == '/' then name else cwd + "/" + name
  }

  /** `relative('/', name)`: the root-relative key of `name`. */
  function RelativeToRoot(cwd: string, name: string): (k: string)
    ensures IsKey(k)
    ensures |k| > 0 ==> k[0] != '/' && k[|k| - 1] != '/'
  {
    var segs := Normalize(Split(Resolve(cwd, name)), []);
    JoinIsKey(segs);
    Join(segs)
  }

  // ---------------------------------------------------------------------

  lemma {:induction false} SplitFromWord(w: string, rest: string, cur: string)
    requires '/' !in w
    ensures SplitFrom(w + rest, cur) == SplitFrom(rest, cur + w)
  {
    if w != [] {
      assert (w + rest)[0] == w[0];
      assert (w + rest)[1..] == w[1..] + rest;
      assert cur + [w[0]] + w[1..] == cur + w;
      SplitFromWord(w[1..], rest, cur + [w[0]]);
    } else {
      assert w + rest == rest;
      assert cur + w == cur;
    }
  }

  lemma {:induction false} SplitJoinFrom(segs: seq<string>, cur: string)
    requires |segs| >= 1
    requires forall j :: 0 <= j < |segs| ==> '/' !in segs[j]
    ensures SplitFrom(Join(segs), cur) == [cur + segs[0]] + segs[1..]
  {
    if |segs| == 1 {
      SplitFromWord(segs[0], [], cur);
      assert segs[0] + [] == segs[0];
    } else {
      var rest := Join(segs[1..]);
      assert Join(segs) == segs[0] + ("/" + rest);
      SplitFromWord(segs[0], "/" + rest, cur);
      assert ("/" + rest)[1..] == rest;
      SplitJoinFrom(segs[1..], []);
      assert [] + segs[1..][0] == segs[1];
      assert [segs[1]] + segs[1..][1..] == segs[1..];
    }
  }

  /** Splitting undoes joining, for segments without '/'. */
  lemma SplitJoin(segs: seq<string>)
    requires |segs| >= 1
    requires forall j :: 0 <= j < |segs| ==> '/' !in segs[j]
    ensures Split(Join(segs)) == segs
  {
    SplitJoinFrom(segs, []);
    assert [] + segs[0] == segs[0];
  }

  lemma JoinIsKey(segs: seq<string>)
    requires Canonical(segs)
    ensures IsKey(Join(segs))
    ensures |Join(segs)| > 0 ==> Join(segs)[0] != '/' && Join(segs)[|Join(segs)| - 1] != '/'
  {
    if |segs| > 0 {
      SplitJoin(segs);
      JoinEnds(segs);
    }
  }

  lemma {:induction false} JoinEnds(segs: seq<string>)
    requires |segs| >= 1 && Canonical(segs)
    ensures |Join(segs)| > 0
    ensures Join(segs)[0] == segs[0][0]
    ensures Join(segs)[|Join(segs)| - 1] == segs[|segs| - 1][|segs[|segs| - 1]| - 1]
  {
    assert PlainSegment(segs[0]);
    if |segs| > 1 {
      var rest := segs[1..];
      assert rest[|rest| - 1] == segs[|segs| - 1];
      JoinEnds(rest);
      var j := Join(rest);
      var whole := segs[0] + "/" + j;
      assert Join(segs) == whole;
      assert whole[0] == segs[0][0];
      assert whole[|whole| - 1] == j[|j| - 1];
    }
  }

  lemma {:induction false} NormalizeCanonical(segs: seq<string>, acc: seq<string>)
    requires Canonical(segs) && Canonical(acc)
    ensures Normalize(segs, acc) == acc + segs
  {
    if segs == [] {
      assert acc + segs == acc;
    } else {
      assert PlainSegment(segs[0]);
      assert Canonical(segs[1..]) by {
        forall j | 0 <= j < |segs[1..]| ensures PlainSegment(segs[1..][j]) {
          assert segs[1..][j] == segs[j + 1];
        }
      }
      NormalizeCanonical(segs[1..], acc + [segs[0]]);
      assert acc + [segs[0]] + segs[1..] == acc + segs;
    }
  }

  /** Stripping the leading '/': an absolute name built from a store key
      resolves back to that key, whatever the working directory. */
  lemma RootedKeyRoundTrip(cwd: string, k: string)
    requires IsKey(k)
    ensures RelativeToRoot(cwd, "/" + k) == k
  {
    var name := "/" + k;
    assert Resolve(cwd, name) == name;
    if k == [] {
      assert name == "/" && name[0] == '/' && name[1..] == [];
      assert SplitFrom([], []) == [[]];
      assert Split(name) == [[], []];
      var segs: seq<string> := [[], []];
      assert segs[1..] == [[]];
      assert Normalize(segs, []) == [];
    } else {
      var segs := Split(k);
      SplitJoin(segs);
      assert Join(segs) == k by {
        KeyIsJoin(k);
      }
      assert name[1..] == k;
      assert Split(name) == [[]] + segs;
      assert Normalize(Split(name), []) == Normalize(segs, []);
      NormalizeCanonical(segs, []);
      assert [] + segs == segs;
    }
  }

  /** A name relative to the root (as the store's own operations take
      them) also resolves to itself when it is a key. */
  lemma RelativeKeyRoundTrip(k: string)
    requires IsKey(k)
    ensures RelativeToRoot("/", k) == k
  {
    var segs := Split(k);
    if k != [] {
      assert PlainSegment(segs[0]);
    }
    assert Resolve("/", k) == "//" + k;
    SplitDoublyRooted(k);
    if k == [] {
      assert segs == [[]];
      assert Normalize([[], [], []], []) == [];
    } else {
      LeadingEmptiesVanish(segs);
      KeyIsJoin(k);
    }
  }

  lemma SplitDoublyRooted(k: string)
    ensures Split("//" + k) == [[], []] + Split(k)
  {
    var name := "//" + k;
    assert name[0] == '/' && name[1..] == "/" + k;
    assert ("/" + k)[0] == '/' && ("/" + k)[1..] == k;
    assert SplitFrom(name, []) == [[]] + SplitFrom("/" + k, []);
    assert SplitFrom("/" + k, []) == [[]] + SplitFrom(k, []);
  }

  lemma LeadingEmptiesVanish(segs: seq<string>)
    requires Canonical(segs)
    ensures Normalize([[], []] + segs, []) == segs
  {
    var all: seq<string> := [[], []] + segs;
    assert all[0] == [] && all[1..][0] == [];
    assert all[1..][1..] == segs;
    NormalizeCanonical(segs, []);
    assert [] + segs == segs;
  }

  /** A single plain segment is a key. */
  lemma SegmentIsKey(w: string)
    requires PlainSegment(w)
    ensures IsKey(w)
  {
    SplitFromWord(w, [], []);
    assert w + [] == w && [] + w == w;
    assert SplitFrom([], w) == [w];
  }

  lemma KeyIsJoin(k: string)
    ensures Join(Split(k)) == k
  {
    JoinSplitFrom(k, []);
  }

  lemma {:induction false} JoinSplitFrom(s: string, cur: string)
    ensures Join(SplitFrom(s, cur)) == cur + s
  {
    if s == [] {
    } else if s[0] == '/' {
      JoinSplitFrom(s[1..], []);
      assert s == "/" + s[1..];
    } else {
      JoinSplitFrom(s[1..], cur + [s[0]]);
      assert cur + [s[0]] + s[1..] == cur + s;
    }
  }

  /** Resolution is idempotent: a key, made absolute again, is its own key. */
  lemma RelativeToRootIdempotent(cwd: string, name: string)
    ensures RelativeToRoot(cwd, "/" + RelativeToRoot(cwd, name)) == RelativeToRoot(cwd, name)
  {
    RootedKeyRoundTrip(cwd, RelativeToRoot(cwd, name));
  }
}
