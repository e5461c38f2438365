/** The update recorder of the virtual file store: insertions recorded against
    the ORIGINAL text of one file and committed once.

    An insertion `insertRight(offset, text)` is anchored to an offset of the
    original text, never to a position computed after another insertion, so
    the committed text is described position by position: at every original
    offset k, first the payloads anchored at k (in call order), then the
    original character at k. */
module EditBuffer {
  import opened Wrappers

  /** One `insertRight(offset, text)` call. */
  datatype Insertion = Insertion(offset: nat, text: string)

  datatype CommitError = OffsetOutOfRange(offset: nat)

  /** Every insertion is anchored at a position of a text of length n. */
  predicate InRange(edits: seq<Insertion>, n: nat) {
    forall j :: 0 <= j < |edits| ==> edits[j].offset <= n
  }

  /** Anchors strictly increase in call order. */
  predicate Ascending(edits: seq<Insertion>) {
    forall j, k :: 0 <= j < k < |edits| ==> edits[j].offset < edits[k].offset
  }

  function Payloads(edits: seq<Insertion>): (ps: seq<string>)
    ensures |ps| == |edits|
    ensures forall j :: 0 <= j < |edits| ==> ps[j] == edits[j].text
  {
    if edits == [] then [] else [edits[0].text] + Payloads(edits[1..])
  }

  /** The payloads anchored at original offset k, concatenated in call order. */
  function AnchoredAt(edits: seq<Insertion>, k: nat): string {
    if edits == [] then []
    else (if edits[0].offset == k then edits[0].text else []) + AnchoredAt(edits[1..], k)
  }

  /** The committed text from original offset i onwards. */
  function Weave(text: string, edits: seq<Insertion>, i: nat): string
    requires i <= |text|
    decreases |text| - i
  {
    if i == |text| then AnchoredAt(edits, i)
    else AnchoredAt(edits, i) + [text[i]] + Weave(text, edits, i + 1)
  }

  /** The first anchor beyond the end of a text of length n, if any. */
  function FirstOutOfRange(edits: seq<Insertion>, n: nat): (r: Option<nat>)
    ensures r.None? <==> InRange(edits, n)
    ensures r.Some? ==> n < r.value && exists j :: 0 <= j < |edits| && edits[j].offset == r.value
  {
    if edits == [] then None
    else if edits[0].offset > n then Some(edits[0].offset)
    else
      var rest := FirstOutOfRange(edits[1..], n);
      assert rest.Some? ==> exists j :: 1 <= j < |edits| && edits[j].offset == rest.value by {
        if rest.Some? {
          var j :| 0 <= j < |edits[1..]| && edits[1..][j].offset == rest.value;
          assert edits[j + 1].offset == rest.value;
        }
      }
      assert InRange(edits[1..], n) ==> InRange(edits, n) by {
        if InRange(edits[1..], n) {
          forall j | 0 <= j < |edits| ensures edits[j].offset <= n {
            if j > 0 { assert edits[j] == edits[1..][j - 1]; }
          }
        }
      }
      rest
  }

  /** `commitUpdate`: applies every recorded insertion to the original text,
      or fails as a whole when an anchor lies beyond the end of the text. */
  function Commit(text: string, edits: seq<Insertion>): (r: Result<string, CommitError>)
    ensures r.Success? <==> InRange(edits, |text|)
    ensures r.Failure? ==> |text| < r.error.offset
    ensures r.Failure? ==> exists j :: 0 <= j < |edits| && edits[j].offset == r.error.offset
  {
    match FirstOutOfRange(edits, |text|)
    case Some(o) => Failure(OffsetOutOfRange(o))
    case None => Success(Weave(text, edits, 0))
  }

  // ---------------------------------------------------------------------
  // Provenance of the committed text: every character is either kept from
  // the original or part of exactly one inserted payload.

  datatype Piece = Kept(c: char) | Inserted(s: string)

  function Flatten(ps: seq<Piece>): string {
    if ps == [] then []
    else (match ps[0] case Kept(c) => [c] case Inserted(s) => s) + Flatten(ps[1..])
  }

  /** The text left after deleting every inserted fragment. */
  function KeptChars(ps: seq<Piece>): string {
    if ps == [] then []
    else (match ps[0] case Kept(c) => [c] case Inserted(_) => []) + KeptChars(ps[1..])
  }

  /** The inserted fragments, in text order. */
  function InsertedTexts(ps: seq<Piece>): seq<string> {
    if ps == [] then []
    else (match ps[0] case Kept(_) => [] case Inserted(s) => [s]) + InsertedTexts(ps[1..])
  }

  function AnchoredPieces(edits: seq<Insertion>, k: nat): seq<Piece> {
    if edits == [] then []
    else (if edits[0].offset == k then [Inserted(edits[0].text)] else []) + AnchoredPieces(edits[1..], k)
  }

  /** The committed text from offset i onwards, as pieces. */
  function Layout(text: string, edits: seq<Insertion>, i: nat): seq<Piece>
    requires i <= |text|
    decreases |text| - i
  {
    if i == |text| then AnchoredPieces(edits, i)
    else AnchoredPieces(edits, i) + [Kept(text[i])] + Layout(text, edits, i + 1)
  }

  lemma FlattenAppend(a: seq<Piece>, b: seq<Piece>)
    ensures Flatten(a + b) == Flatten(a) + Flatten(b)
    ensures KeptChars(a + b) == KeptChars(a) + KeptChars(b)
    ensures InsertedTexts(a + b) == InsertedTexts(a) + InsertedTexts(b)
  {
    FlattenAppendText(a, b);
    KeptAppend(a, b);
    InsertedAppend(a, b);
  }

  lemma {:induction false} FlattenAppendText(a: seq<Piece>, b: seq<Piece>)
    ensures Flatten(a + b) == Flatten(a) + Flatten(b)
  {
    if a == [] {
      assert a + b == b;
    } else {
      assert (a + b)[0] == a[0];
      assert (a + b)[1..] == a[1..] + b;
      FlattenAppendText(a[1..], b);
    }
  }

  lemma {:induction false} KeptAppend(a: seq<Piece>, b: seq<Piece>)
    ensures KeptChars(a + b) == KeptChars(a) + KeptChars(b)
  {
    if a == [] {
      assert a + b == b;
    } else {
      assert (a + b)[0] == a[0];
      assert (a + b)[1..] == a[1..] + b;
      KeptAppend(a[1..], b);
    }
  }

  lemma {:induction false} InsertedAppend(a: seq<Piece>, b: seq<Piece>)
    ensures InsertedTexts(a + b) == InsertedTexts(a) + InsertedTexts(b)
  {
    if a == [] {
      assert a + b == b;
    } else {
      assert (a + b)[0] == a[0];
      assert (a + b)[1..] == a[1..] + b;
      InsertedAppend(a[1..], b);
    }
  }

  lemma {:induction false} AnchoredPiecesFlatten(edits: seq<Insertion>, k: nat)
    ensures Flatten(AnchoredPieces(edits, k)) == AnchoredAt(edits, k)
    ensures KeptChars(AnchoredPieces(edits, k)) == []
    ensures InsertedTexts(AnchoredPieces(edits, k)) == PayloadsAt(edits, k)
  {
    if edits != [] {
      var head: seq<Piece> := if edits[0].offset == k then [Inserted(edits[0].text)] else [];
      FlattenAppend(head, AnchoredPieces(edits[1..], k));
      AnchoredPiecesFlatten(edits[1..], k);
      if edits[0].offset == k {
        assert head[1..] == [];
      }
    }
  }

  lemma LayoutStep(text: string, edits: seq<Insertion>, i: nat)
    requires i < |text|
    ensures Flatten(Layout(text, edits, i))
         == AnchoredAt(edits, i) + [text[i]] + Flatten(Layout(text, edits, i + 1))
    ensures KeptChars(Layout(text, edits, i))
         == [text[i]] + KeptChars(Layout(text, edits, i + 1))
    ensures InsertedTexts(Layout(text, edits, i))
         == PayloadsAt(edits, i) + InsertedTexts(Layout(text, edits, i + 1))
  {
    var a := AnchoredPieces(edits, i);
    var k: seq<Piece> := [Kept(text[i])];
    var rest := Layout(text, edits, i + 1);
    assert Layout(text, edits, i) == a + (k + rest);
    AnchoredPiecesFlatten(edits, i);
    KeptPieceStep(text[i], rest);
    FlattenAppend(a, k + rest);
  }

  /** One kept character in front of further pieces. */
  lemma KeptPieceStep(c: char, rest: seq<Piece>)
    ensures Flatten([Kept(c)] + rest) == [c] + Flatten(rest)
    ensures KeptChars([Kept(c)] + rest) == [c] + KeptChars(rest)
    ensures InsertedTexts([Kept(c)] + rest) == InsertedTexts(rest)
  {
    var k: seq<Piece> := [Kept(c)];
    FlattenAppend(k, rest);
    assert k[1..] == [];
    assert Flatten(k) == [c];
    assert KeptChars(k) == [c];
    assert InsertedTexts(k) == [];
  }

  /** The layout spells out exactly the committed text. */
  lemma {:induction false} LayoutFlattens(text: string, edits: seq<Insertion>, i: nat)
    requires i <= |text|
    ensures Flatten(Layout(text, edits, i)) == Weave(text, edits, i)
    decreases |text| - i
  {
    AnchoredPiecesFlatten(edits, i);
    if i < |text| {
      LayoutStep(text, edits, i);
      LayoutFlattens(text, edits, i + 1);
    }
  }

  /** Deleting the inserted pieces from offset i onwards leaves text[i..]. */
  lemma {:induction false} LayoutKeeps(text: string, edits: seq<Insertion>, i: nat)
    requires i <= |text|
    ensures KeptChars(Layout(text, edits, i)) == text[i..]
    decreases |text| - i
  {
    if i < |text| {
      LayoutKeeps(text, edits, i + 1);
      assert KeptChars(Layout(text, edits, i)) == [text[i]] + text[i + 1..] by {
        LayoutStep(text, edits, i);
      }
      assert text[i..] == [text[i]] + text[i + 1..];
    } else {
      AnchoredPiecesFlatten(edits, i);
    }
  }

  lemma {:induction false} LayoutInserts(text: string, edits: seq<Insertion>, i: nat)
    requires i <= |text|
    ensures InsertedTexts(Layout(text, edits, i)) == Gathered(edits, i, |text|)
    decreases |text| - i
  {
    AnchoredPiecesFlatten(edits, i);
    if i < |text| {
      LayoutStep(text, edits, i);
      LayoutInserts(text, edits, i + 1);
    }
  }

  // ---------------------------------------------------------------------
  // The inserted fragments are exactly the payloads.

  /** The payloads anchored at k, as a list, in call order. */
  function PayloadsAt(edits: seq<Insertion>, k: nat): seq<string> {
    if edits == [] then []
    else (if edits[0].offset == k then [edits[0].text] else []) + PayloadsAt(edits[1..], k)
  }

  /** The payloads anchored at i, i+1, ..., n, in that order. */
  function Gathered(edits: seq<Insertion>, i: nat, n: nat): seq<string>
    requires i <= n
    decreases n - i
  {
    PayloadsAt(edits, i) + (if i == n then [] else Gathered(edits, i + 1, n))
  }

  /** The payloads anchored anywhere in [i, n], in call order. */
  function PayloadsBetween(edits: seq<Insertion>, i: nat, n: nat): seq<string> {
    if edits == [] then []
    else (if i <= edits[0].offset <= n then [edits[0].text] else []) + PayloadsBetween(edits[1..], i, n)
  }

  lemma {:induction false} GatheredCons(e: Insertion, rest: seq<Insertion>, i: nat, n: nat)
    requires i <= n
    ensures multiset(Gathered([e] + rest, i, n))
         == multiset(Gathered(rest, i, n)) + (if i <= e.offset <= n then multiset{e.text} else multiset{})
    decreases n - i
  {
    assert ([e] + rest)[0] == e;
    assert ([e] + rest)[1..] == rest;
    if i < n {
      GatheredCons(e, rest, i + 1, n);
    }
  }

  lemma {:induction false} GatheredIsBetween(edits: seq<Insertion>, i: nat, n: nat)
    requires i <= n
    ensures multiset(Gathered(edits, i, n)) == multiset(PayloadsBetween(edits, i, n))
  {
    if edits == [] {
      GatheredEmpty(i, n);
    } else {
      assert edits == [edits[0]] + edits[1..];
      GatheredCons(edits[0], edits[1..], i, n);
      GatheredIsBetween(edits[1..], i, n);
    }
  }

  lemma {:induction false} GatheredEmpty(i: nat, n: nat)
    requires i <= n
    ensures Gathered([], i, n) == []
    decreases n - i
  {
    if i < n { GatheredEmpty(i + 1, n); }
  }

  lemma {:induction false} BetweenIsAll(edits: seq<Insertion>, n: nat)
    requires InRange(edits, n)
    ensures PayloadsBetween(edits, 0, n) == Payloads(edits)
  {
    if edits != [] {
      assert InRange(edits[1..], n) by {
        forall j | 0 <= j < |edits[1..]| ensures edits[1..][j].offset <= n {
          assert edits[1..][j] == edits[j + 1];
        }
      }
      BetweenIsAll(edits[1..], n);
    }
  }

  /** Committing preserves every original character in order (deleting the
      inserted fragments gives back the original text) and inserts exactly
      the recorded payloads, each once. */
  lemma CommitInterleaves(text: string, edits: seq<Insertion>)
    requires InRange(edits, |text|)
    ensures Commit(text, edits).Success?
    ensures Commit(text, edits).value == Flatten(Layout(text, edits, 0))
    ensures KeptChars(Layout(text, edits, 0)) == text
    ensures multiset(InsertedTexts(Layout(text, edits, 0))) == multiset(Payloads(edits))
  {
    LayoutFlattens(text, edits, 0);
    LayoutKeeps(text, edits, 0);
    LayoutInserts(text, edits, 0);
    GatheredIsBetween(edits, 0, |text|);
    BetweenIsAll(edits, |text|);
  }

  // ---------------------------------------------------------------------
  // Reference definition: splice the insertions into the text one by one,
  // highest anchor first, so that no splice shifts an anchor still to come.

  function Splice(text: string, edits: seq<Insertion>): string
    requires Ascending(edits) && InRange(edits, |text|)
    decreases |edits|
  {
    if edits == [] then text
    else
      var e := edits[|edits| - 1];
      var init := edits[..|edits| - 1];
      var spliced := text[..e.offset] + e.text + text[e.offset..];
      assert InRange(init, |spliced|) by {
        forall j | 0 <= j < |init| ensures init[j].offset <= |spliced| {
          assert init[j] == edits[j];
        }
      }
      Splice(spliced, init)
  }

  lemma {:induction false} AnchoredAtAppend(a: seq<Insertion>, b: seq<Insertion>, k: nat)
    ensures AnchoredAt(a + b, k) == AnchoredAt(a, k) + AnchoredAt(b, k)
  {
    if a == [] {
      assert a + b == b;
    } else {
      assert (a + b)[1..] == a[1..] + b;
      AnchoredAtAppend(a[1..], b, k);
    }
  }

  lemma {:induction false} AnchoredAtBelow(edits: seq<Insertion>, k: nat)
    requires forall j :: 0 <= j < |edits| ==> edits[j].offset < k
    ensures AnchoredAt(edits, k) == []
  {
    if edits != [] {
      AnchoredAtBelow(edits[1..], k);
    }
  }

  /** Past the last anchor, the committed text is the original text. */
  lemma {:induction false} WeaveUntouched(text: string, edits: seq<Insertion>, i: nat)
    requires i <= |text|
    requires forall j :: 0 <= j < |edits| ==> edits[j].offset < i
    ensures Weave(text, edits, i) == text[i..]
    decreases |text| - i
  {
    AnchoredAtBelow(edits, i);
    if i < |text| {
      WeaveUntouched(text, edits, i + 1);
      assert text[i..] == [text[i]] + text[i + 1..];
    }
  }

  /** At the anchor of the last insertion, both sides continue with its
      payload followed by the rest of the original text. */
  lemma SpliceLastAtAnchor(text: string, init: seq<Insertion>, e: Insertion)
    requires e.offset <= |text|
    requires forall j :: 0 <= j < |init| ==> init[j].offset < e.offset
    ensures Weave(text, init + [e], e.offset)
         == Weave(text[..e.offset] + e.text + text[e.offset..], init, e.offset)
  {
    var o := e.offset;
    var spliced := text[..o] + e.text + text[o..];
    WeaveUntouched(spliced, init, o);
    assert spliced[o..] == e.text + text[o..];
    LastAnchorWeave(text, init, e);
  }

  /** From the last anchor on, the committed text is the last payload
      followed by the rest of the original text. */
  lemma LastAnchorWeave(text: string, init: seq<Insertion>, e: Insertion)
    requires e.offset <= |text|
    requires forall j :: 0 <= j < |init| ==> init[j].offset < e.offset
    ensures Weave(text, init + [e], e.offset) == e.text + text[e.offset..]
  {
    var o := e.offset;
    var all := init + [e];
    LastAnchorPayload(init, e);
    if o < |text| {
      forall j | 0 <= j < |all| ensures all[j].offset < o + 1 {
        if j < |init| { assert all[j] == init[j]; }
      }
      WeaveUntouched(text, all, o + 1);
      assert text[o..] == [text[o]] + text[o + 1..];
    }
  }

  lemma LastAnchorPayload(init: seq<Insertion>, e: Insertion)
    requires forall j :: 0 <= j < |init| ==> init[j].offset < e.offset
    ensures AnchoredAt(init + [e], e.offset) == e.text
  {
    AnchoredAtAppend(init, [e], e.offset);
    assert [e][1..] == [];
    AnchoredAtBelow(init, e.offset);
  }

  /** Committing the last insertion first and the rest afterwards against the
      spliced text gives the same result, from any offset up to its anchor. */
  lemma {:induction false} SpliceLast(text: string, init: seq<Insertion>, e: Insertion, i: nat)
    requires e.offset <= |text| && i <= e.offset
    requires forall j :: 0 <= j < |init| ==> init[j].offset < e.offset
    ensures Weave(text, init + [e], i)
         == Weave(text[..e.offset] + e.text + text[e.offset..], init, i)
    decreases e.offset - i
  {
    if i == e.offset {
      SpliceLastAtAnchor(text, init, e);
    } else {
      var spliced := text[..e.offset] + e.text + text[e.offset..];
      AnchoredAtAppend(init, [e], i);
      assert [e][1..] == [];
      assert AnchoredAt(init + [e], i) == AnchoredAt(init, i);
      assert spliced[i] == text[i];
      SpliceLast(text, init, e, i + 1);
    }
  }

  /** For insertions recorded in increasing anchor order, committing agrees
      with splicing them in one at a time from the highest anchor down. */
  lemma {:induction false} CommitIsSplice(text: string, edits: seq<Insertion>)
    requires Ascending(edits) && InRange(edits, |text|)
    ensures Commit(text, edits) == Success(Splice(text, edits))
    decreases |edits|
  {
    if edits == [] {
      WeaveUntouched(text, edits, 0);
    } else {
      var e := edits[|edits| - 1];
      var init := edits[..|edits| - 1];
      var spliced := text[..e.offset] + e.text + text[e.offset..];
      assert edits == init + [e];
      forall j | 0 <= j < |init| ensures init[j].offset < e.offset {
        assert init[j] == edits[j];
      }
      SpliceLast(text, init, e, 0);
      assert InRange(init, |spliced|) by {
        forall j | 0 <= j < |init| ensures init[j].offset <= |spliced| {
          assert init[j] == edits[j];
        }
      }
      CommitIsSplice(spliced, init);
    }
  }

  lemma InRangeAppend(p: seq<Insertion>, q: seq<Insertion>, n: nat)
    ensures InRange(p + q, n) <==> InRange(p, n) && InRange(q, n)
  {
    if InRange(p, n) && InRange(q, n) {
      forall j | 0 <= j < |p + q| ensures (p + q)[j].offset <= n {
        if j >= |p| { assert (p + q)[j] == q[j - |p|]; }
      }
    }
    if InRange(p + q, n) {
      forall j | 0 <= j < |p| ensures p[j].offset <= n {
        assert (p + q)[j] == p[j];
      }
      forall j | 0 <= j < |q| ensures q[j].offset <= n {
        assert (p + q)[j + |p|] == q[j];
      }
    }
  }

  // ---------------------------------------------------------------------
  // Order of the calls does not matter between different anchors.

  lemma {:induction false} WeaveCongruent(text: string, e1: seq<Insertion>, e2: seq<Insertion>, i: nat)
    requires i <= |text|
    requires forall k: nat :: AnchoredAt(e1, k) == AnchoredAt(e2, k)
    ensures Weave(text, e1, i) == Weave(text, e2, i)
    decreases |text| - i
  {
    if i < |text| {
      WeaveCongruent(text, e1, e2, i + 1);
      WeaveStepCongruent(text, e1, e2, i);
    } else {
      assert AnchoredAt(e1, i) == AnchoredAt(e2, i);
    }
  }

  /** One step of the congruence: the same payloads at i and the same text
      after i give the same text from i on. */
  lemma WeaveStepCongruent(text: string, e1: seq<Insertion>, e2: seq<Insertion>, i: nat)
    requires i < |text|
    requires AnchoredAt(e1, i) == AnchoredAt(e2, i)
    requires Weave(text, e1, i + 1) == Weave(text, e2, i + 1)
    ensures Weave(text, e1, i) == Weave(text, e2, i)
  {
  }

  /** Swapping two neighbouring calls with different anchors leaves the
      payload at every anchor unchanged. */
  lemma SwapKeepsAnchored(a: seq<Insertion>, x: Insertion, y: Insertion, b: seq<Insertion>)
    requires x.offset != y.offset
    ensures forall k: nat :: AnchoredAt(a + [x, y] + b, k) == AnchoredAt(a + [y, x] + b, k)
  {
    forall k: nat ensures AnchoredAt(a + [x, y] + b, k) == AnchoredAt(a + [y, x] + b, k) {
      AnchoredAtAppend(a, [x, y] + b, k);
      AnchoredAtAppend(a, [y, x] + b, k);
      assert a + [x, y] + b == a + ([x, y] + b);
      assert a + [y, x] + b == a + ([y, x] + b);
      assert ([x, y] + b)[1..] == [y] + b;
      assert ([y] + b)[1..] == b;
      assert ([y, x] + b)[1..] == [x] + b;
      assert ([x] + b)[1..] == b;
    }
  }

  /** Swapping two neighbouring calls keeps the batch in range or out of it. */
  lemma SwapKeepsInRange(a: seq<Insertion>, x: Insertion, y: Insertion, b: seq<Insertion>, n: nat)
    ensures InRange(a + [x, y] + b, n) <==> InRange(a + [y, x] + b, n)
  {
    InRangeAppend(a + [x, y], b, n);
    InRangeAppend(a + [y, x], b, n);
    InRangeAppend(a, [x, y], n);
    InRangeAppend(a, [y, x], n);
    assert InRange([x, y], n) <==> x.offset <= n && y.offset <= n by {
      assert [x, y][0] == x && [x, y][1] == y;
    }
    assert InRange([y, x], n) <==> x.offset <= n && y.offset <= n by {
      assert [y, x][0] == y && [y, x][1] == x;
    }
  }

  /** Swapping two neighbouring calls with different anchors leaves the
      committed text unchanged. */
  lemma SwapDistinctAnchors(text: string, a: seq<Insertion>, x: Insertion, y: Insertion, b: seq<Insertion>)
    requires x.offset != y.offset
    ensures Commit(text, a + [x, y] + b).Success? <==> Commit(text, a + [y, x] + b).Success?
    ensures Commit(text, a + [x, y] + b).Success? ==>
              Commit(text, a + [x, y] + b).value == Commit(text, a + [y, x] + b).value
  {
    SwapKeepsInRange(a, x, y, b, |text|);
    SwapKeepsAnchored(a, x, y, b);
    WeaveCongruent(text, a + [x, y] + b, a + [y, x] + b, 0);
  }
}
