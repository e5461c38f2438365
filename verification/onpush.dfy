/** `addOnPushToComponent`: adds `changeDetection: ChangeDetectionStrategy.OnPush`
    to the `@Component` options of `/src/app/app.component.ts` and
    `ChangeDetectionStrategy` to its `@angular/core` import, by insertions at
    original-text offsets committed once.

    The compiler (host creation, program creation, parsing) is not part of
    this model: the parser is a parameter `parse` from the file's text to its
    top-level statements. Every non-null assertion and unchecked property read
    of the source that can throw is an explicit `PatchError`; a thrown error
    leaves the store untouched, because the commit is never reached. */
module OnPush {
  import opened Wrappers
  import opened Syntax
  import opened EditBuffer
  import Paths
  import Host

  const AppComponentPath: string := "/src/app/app.component.ts"
  const ComponentName: string := "Component"
  const CoreModule: string := "@angular/core"
  const ImportPayload: string := ", ChangeDetectionStrategy"
  const OptionPayload: string := ",\n  changeDetection: ChangeDetectionStrategy.OnPush"

  datatype PatchError =
      /** No source file could be read for the entry path. */
    | EntryFileMissing
      /** `node.decorators!` on a class without decorators. */
    | DecoratorsMissing
      /** `.expression.escapedText` read through a decorator expression that
          has no `expression` child (a bare `@Name`). */
    | DecoratorUnreadable
      /** `find(...)!` found no `Component` decorator. */
    | ComponentDecoratorMissing
      /** `arguments[0]` is absent: `@Component()`. */
    | ArgumentMissing
      /** `arguments[0]` is not an object literal, so it has no properties. */
    | ArgumentNotObject
      /** The options object is `{}`: there is no last property to anchor to. */
    | NoComponentOptions
      /** `node.importClause!` on a side-effect import. */
    | ImportClauseMissing
      /** The bindings are absent or a namespace import: no `elements`. */
    | NotNamedImports
      /** `import {} from '@angular/core'`: no last name to anchor to. */
    | NoNamedImports
    | CommitFailed(cause: CommitError)

  /** The compiler host's `readFile` hook: the text stored under the name's
      root-relative key, or absent. An empty file is present (its buffer is
      truthy). */
  function ReadFile(files: Host.Files, cwd: string, fileName: string): Option<string> {
    var key := Paths.RelativeToRoot(cwd, fileName);
    if key in files then Some(files[key]) else None
  }

  /** The hook reads exactly the file stored under the key obtained by
      stripping the leading '/', and reports an absent file as absent. */
  lemma ReadFileStripsRoot(files: Host.Files, cwd: string, key: string)
    requires Paths.IsKey(key)
    ensures key in files ==> ReadFile(files, cwd, "/" + key) == Some(files[key])
    ensures key !in files ==> ReadFile(files, cwd, "/" + key) == None
  {
    Paths.RootedKeyRoundTrip(cwd, key);
  }

  /** For an absolute name the working directory does not matter, so the
      compiler and the store agree on the key of the entry file. */
  lemma AbsoluteNameIgnoresCwd(cwd: string, name: string)
    requires |name| > 0 && name[0] == '/'
    ensures Paths.RelativeToRoot(cwd, name) == Host.Key(name)
  {
  }

  // ---------------------------------------------------------------------
  // Decorator lookup

  function NameOf(e: Expr): Option<string> {
    if e.Identifier? then Some(e.escapedText) else None
  }

  /** `(<any>decorator.expression).expression.escapedText`: absent when the
      `expression` child is not an identifier; a failure when the decorator
      expression has no `expression` child at all. */
  function CalleeName(e: Expr): (r: Result<Option<string>, PatchError>)
    ensures r.Failure? <==> !(e.Call? || e.Wrapped?)
  {
    match e
    case Call(callee, _) => Success(NameOf(callee))
    case Wrapped(inner) => Success(NameOf(inner))
    case _ => Failure(DecoratorUnreadable)
  }

  predicate IsComponent(d: Decorator) {
    CalleeName(d.expression) == Success(Some(ComponentName))
  }

  /** The `find` predicate ran on d without throwing and rejected it. */
  predicate Rejected(d: Decorator) {
    CalleeName(d.expression).Success? && !IsComponent(d)
  }

  /** `decorators.find(...)` from index i: the index of the first
      `Component` decorator, or a failure when the predicate throws on a
      decorator before it. */
  function FindComponent(ds: seq<Decorator>, i: nat): (r: Result<Option<nat>, PatchError>)
    requires i <= |ds|
    ensures r.Success? && r.value.Some? ==>
      i <= r.value.value < |ds| && IsComponent(ds[r.value.value])
      && forall j :: i <= j < r.value.value ==> Rejected(ds[j])
    ensures r.Success? && r.value.None? ==> forall j :: i <= j < |ds| ==> Rejected(ds[j])
    ensures r.Failure? ==>
      r.error == DecoratorUnreadable
      && exists k :: i <= k < |ds| && CalleeName(ds[k].expression).Failure?
                     && forall j :: i <= j < k ==> Rejected(ds[j])
    decreases |ds| - i
  {
    if i == |ds| then Success(None)
    else
      match CalleeName(ds[i].expression)
      case Failure(e) => Failure(e)
      case Success(name) =>
        if name == Some(ComponentName) then Success(Some(i))
        else FindComponent(ds, i + 1)
  }

  // ---------------------------------------------------------------------
  // Planning

  /** The end offset of the last named import: the import edit's anchor. */
  function ImportEnd(elements: seq<ImportSpecifier>): nat
    requires |elements| > 0
  {
    elements[|elements| - 1].end
  }

  /** The end offset of the last component option: the option edit's anchor. */
  function OptionEnd(props: seq<Property>): nat
    requires |props| > 0
  {
    props[|props| - 1].end
  }

  /** What one class declaration contributes: the option insertion, or the
      "component decorator not recognised" warning. */
  datatype ClassOutcome = OptionEdit(edit: Insertion) | NotRecognised

  /** The decorator matched and its expression is a call whose first argument
      is an object literal with at least one property; the option goes right
      after the last property. */
  predicate AnchorsOption(d: Decorator, edit: Insertion) {
    && d.expression.Call?
    && |d.expression.arguments| > 0
    && d.expression.arguments[0].ObjectLiteral?
    && var props := d.expression.arguments[0].properties;
       |props| > 0 && edit == Insertion(OptionEnd(props), OptionPayload)
  }

  /** `addOnPushToComponentDecorator`. */
  function PlanClass(decorators: Option<seq<Decorator>>): (r: Result<ClassOutcome, PatchError>)
    ensures decorators.None? ==> r == Failure(DecoratorsMissing)
    ensures r.Success? ==>
      decorators.Some?
      && (exists i :: 0 <= i < |decorators.value| && IsComponent(decorators.value[i])
           && (forall j :: 0 <= j < i ==> Rejected(decorators.value[j]))
           && (r.value.NotRecognised? <==> !decorators.value[i].expression.Call?)
           && (r.value.OptionEdit? ==> AnchorsOption(decorators.value[i], r.value.edit)))
    ensures decorators.Some? && (forall j :: 0 <= j < |decorators.value| ==> Rejected(decorators.value[j]))
            ==> r == Failure(ComponentDecoratorMissing)
  {
    match decorators
    case None => Failure(DecoratorsMissing)
    case Some(ds) =>
      match FindComponent(ds, 0)
      case Failure(e) => Failure(e)
      case Success(None) => Failure(ComponentDecoratorMissing)
      case Success(Some(i)) =>
        var expr := ds[i].expression;
        if !expr.Call? then Success(NotRecognised)
        else if |expr.arguments| == 0 then Failure(ArgumentMissing)
        else if !expr.arguments[0].ObjectLiteral? then Failure(ArgumentNotObject)
        else
          var props := expr.arguments[0].properties;
          if |props| == 0 then Failure(NoComponentOptions)
          else Success(OptionEdit(Insertion(OptionEnd(props), OptionPayload)))
  }

  /** The bindings are a list of named imports `{ a, b }`. */
  predicate IsNamedImports(bindings: Option<NamedBindings>) {
    bindings.Some? && bindings.value.NamedImports?
  }

  /** The import edit: planned exactly for an import whose module specifier
      is `@angular/core`, right after its last named import. */
  function PlanImport(moduleSpecifier: string, clause: Option<ImportClause>): (r: Result<Option<Insertion>, PatchError>)
    ensures moduleSpecifier != CoreModule ==> r == Success(None)
    ensures moduleSpecifier == CoreModule ==> !(r.Success? && r.value.None?)
    ensures r.Success? && r.value.Some? ==>
      && clause.Some? && clause.value.namedBindings.Some?
      && clause.value.namedBindings.value.NamedImports?
      && var elements := clause.value.namedBindings.value.elements;
         |elements| > 0 && r.value.value == Insertion(ImportEnd(elements), ImportPayload)
    ensures moduleSpecifier == CoreModule && clause.None? ==> r == Failure(ImportClauseMissing)
    ensures moduleSpecifier == CoreModule && clause.Some? && !IsNamedImports(clause.value.namedBindings)
            ==> r == Failure(NotNamedImports)
    ensures moduleSpecifier == CoreModule && clause.Some? && IsNamedImports(clause.value.namedBindings)
            ==> var elements := clause.value.namedBindings.value.elements;
                r == if |elements| == 0 then Failure(NoNamedImports)
                     else Success(Some(Insertion(ImportEnd(elements), ImportPayload)))
  {
    if moduleSpecifier != CoreModule then Success(None)
    else match clause
      case None => Failure(ImportClauseMissing)
      case Some(ImportClause(bindings)) =>
        if bindings.None? || !bindings.value.NamedImports? then Failure(NotNamedImports)
        else
          var elements := bindings.value.elements;
          if |elements| == 0 then Failure(NoNamedImports)
          else Success(Some(Insertion(ImportEnd(elements), ImportPayload)))
  }

  /** Insertions recorded and warnings printed so far. */
  datatype Plan = Plan(edits: seq<Insertion>, warnings: nat)

  /** The body of the `forEachChild` callback for one top-level child. */
  function PlanStatement(s: Statement): Result<Plan, PatchError> {
    match s
    case ClassDeclaration(ds) =>
      (match PlanClass(ds)
       case Failure(e) => Failure(e)
       case Success(OptionEdit(edit)) => Success(Plan([edit], 0))
       case Success(NotRecognised) => Success(Plan([], 1)))
    case ImportDeclaration(spec, clause) =>
      (match PlanImport(spec, clause)
       case Failure(e) => Failure(e)
       case Success(Some(edit)) => Success(Plan([edit], 0))
       case Success(None) => Success(Plan([], 0)))
    case OtherStatement => Success(Plan([], 0))
  }

  /** `sourceFile.forEachChild(...)`: visits every top-level child in order,
      with no early exit; the first thrown error ends the walk. */
  function Walk(nodes: seq<Statement>): (r: Result<Plan, PatchError>) {
    if nodes == [] then Success(Plan([], 0))
    else
      match PlanStatement(nodes[0])
      case Failure(e) => Failure(e)
      case Success(head) =>
        match Walk(nodes[1..])
        case Failure(e) => Failure(e)
        case Success(rest) => Success(Plan(head.edits + rest.edits, head.warnings + rest.warnings))
  }

  /** The walk succeeds exactly when every child plans without throwing, and
      a failure is the error of the first child that threw. */
  lemma {:induction false} WalkSpec(nodes: seq<Statement>)
    ensures Walk(nodes).Success? <==> forall j :: 0 <= j < |nodes| ==> PlanStatement(nodes[j]).Success?
    ensures Walk(nodes).Failure? ==>
      exists k :: 0 <= k < |nodes| && PlanStatement(nodes[k]) == Failure(Walk(nodes).error)
                  && forall j :: 0 <= j < k ==> PlanStatement(nodes[j]).Success?
  {
    if nodes != [] && PlanStatement(nodes[0]).Success? {
      WalkSpec(nodes[1..]);
      assert forall j :: 1 <= j < |nodes| ==> nodes[j] == nodes[1..][j - 1];
      if Walk(nodes[1..]).Failure? {
        var k :| 0 <= k < |nodes[1..]| && PlanStatement(nodes[1..][k]) == Failure(Walk(nodes[1..]).error)
                 && forall j :: 0 <= j < k ==> PlanStatement(nodes[1..][j]).Success?;
        assert PlanStatement(nodes[k + 1]) == Failure(Walk(nodes).error);
      }
    }
  }

  // ---------------------------------------------------------------------
  // Commit

  /** The store after the patch, and the number of warnings printed. */
  datatype Patched = Patched(files: Host.Files, warnings: nat)

  /** `addOnPushToComponent`: read, parse, plan every edit, commit once. */
  function AddOnPushToComponent(files: Host.Files, cwd: string, parse: string -> seq<Statement>): (r: Result<Patched, PatchError>)
    ensures Host.Key(AppComponentPath) !in files ==> r == Failure(EntryFileMissing)
    ensures r.Success? ==>
      && Host.Key(AppComponentPath) in files
      && r.value.files.Keys == files.Keys
      && forall k :: k in files && k != Host.Key(AppComponentPath) ==> r.value.files[k] == files[k]
  {
    match ReadFile(files, cwd, AppComponentPath)
    case None => Failure(EntryFileMissing)
    case Some(text) =>
      match Walk(parse(text))
      case Failure(e) => Failure(e)
      case Success(plan) =>
        match Commit(text, plan.edits)
        case Failure(e) => Failure(CommitFailed(e))
        case Success(patched) =>
          Success(Patched(files[Host.Key(AppComponentPath) := patched], plan.warnings))
  }

  // ---------------------------------------------------------------------
  // Properties of the walk

  /** A child that contributes an edit or a warning: every class declaration
      and every `@angular/core` import. */
  predicate Contributes(s: Statement) {
    s.ClassDeclaration? || (s.ImportDeclaration? && s.moduleSpecifier == CoreModule)
  }

  function CountContributing(nodes: seq<Statement>): nat {
    if nodes == [] then 0
    else (if Contributes(nodes[0]) then 1 else 0) + CountContributing(nodes[1..])
  }

  lemma StatementContribution(s: Statement)
    requires PlanStatement(s).Success?
    ensures |PlanStatement(s).value.edits| + PlanStatement(s).value.warnings
            == if Contributes(s) then 1 else 0
  {
  }

  /** The walk has no early exit: every class declaration and every
      `@angular/core` import contributes exactly one edit or one warning. */
  lemma {:induction false} WalkCounts(nodes: seq<Statement>)
    requires Walk(nodes).Success?
    ensures |Walk(nodes).value.edits| + Walk(nodes).value.warnings == CountContributing(nodes)
  {
    if nodes != [] {
      StatementContribution(nodes[0]);
      WalkCounts(nodes[1..]);
    }
  }

  /** Walking a file in two parts is walking it whole: the plans of the
      parts are concatenated, and the walk fails iff a part fails. */
  lemma {:induction false} WalkAppend(a: seq<Statement>, b: seq<Statement>)
    ensures Walk(a + b).Success? <==> Walk(a).Success? && Walk(b).Success?
    ensures Walk(a + b).Success? ==>
      Walk(a + b).value == Plan(Walk(a).value.edits + Walk(b).value.edits,
                                Walk(a).value.warnings + Walk(b).value.warnings)
  {
    if a == [] {
      assert a + b == b;
    } else {
      assert (a + b)[0] == a[0];
      assert (a + b)[1..] == a[1..] + b;
      WalkAppend(a[1..], b);
      if Walk(a + b).Success? {
        var h := PlanStatement(a[0]).value.edits;
        assert h + (Walk(a[1..]).value.edits + Walk(b).value.edits)
            == (h + Walk(a[1..]).value.edits) + Walk(b).value.edits;
      }
    }
  }

  /** Every edit planned for a child is in the plan, and every edit of the
      plan was planned for some child. */
  lemma {:induction false} WalkCovers(nodes: seq<Statement>)
    requires Walk(nodes).Success?
    ensures forall j :: 0 <= j < |nodes| ==> PlanStatement(nodes[j]).Success?
    ensures forall j, e :: 0 <= j < |nodes| && e in PlanStatement(nodes[j]).value.edits
                           ==> e in Walk(nodes).value.edits
    ensures forall e :: e in Walk(nodes).value.edits
                        ==> exists j :: 0 <= j < |nodes| && e in PlanStatement(nodes[j]).value.edits
  {
    WalkSpec(nodes);
    if nodes != [] {
      WalkCovers(nodes[1..]);
      assert forall j :: 1 <= j < |nodes| ==> nodes[j] == nodes[1..][j - 1];
      forall e | e in Walk(nodes).value.edits
        ensures exists j :: 0 <= j < |nodes| && e in PlanStatement(nodes[j]).value.edits
      {
        if e !in PlanStatement(nodes[0]).value.edits {
          var j :| 0 <= j < |nodes[1..]| && e in PlanStatement(nodes[1..][j]).value.edits;
          assert e in PlanStatement(nodes[j + 1]).value.edits;
        }
      }
    }
  }

  /** The import half is independent of the class half: whatever the class
      declarations contribute (an edit or a warning), a successful walk has
      planned `, ChangeDetectionStrategy` after the last name of every
      `@angular/core` named import. */
  lemma ImportEditPlanned(nodes: seq<Statement>, j: nat, elements: seq<ImportSpecifier>)
    requires Walk(nodes).Success?
    requires j < |nodes| && |elements| > 0
    requires nodes[j] == ImportDeclaration(CoreModule, Some(ImportClause(Some(NamedImports(elements)))))
    ensures Insertion(ImportEnd(elements), ImportPayload) in Walk(nodes).value.edits
  {
    WalkCovers(nodes);
    assert PlanStatement(nodes[j]).value.edits == [Insertion(ImportEnd(elements), ImportPayload)];
  }

  /** A class whose `Component` decorator is not a call gets no edit and one
      warning. */
  lemma NotRecognisedWarns(ds: seq<Decorator>, i: nat)
    requires i < |ds| && IsComponent(ds[i]) && !ds[i].expression.Call?
    requires forall j :: 0 <= j < i ==> Rejected(ds[j])
    ensures PlanStatement(ClassDeclaration(Some(ds))) == Success(Plan([], 1))
  {
    FindFirstComponent(ds, 0, i);
  }

  lemma {:induction false} FindFirstComponent(ds: seq<Decorator>, from: nat, i: nat)
    requires from <= i < |ds| && IsComponent(ds[i])
    requires forall j :: from <= j < i ==> Rejected(ds[j])
    ensures FindComponent(ds, from) == Success(Some(i))
    decreases i - from
  {
    if from < i {
      FindFirstComponent(ds, from + 1, i);
    }
  }

  /** The first argument of a `Component` call is an object literal with at
      least one property: the shape the option edit anchors to. */
  predicate HasComponentOptions(e: Expr) {
    && e.Call? && |e.arguments| > 0 && e.arguments[0].ObjectLiteral?
    && |e.arguments[0].properties| > 0
  }

  /** The outcome for a class is decided by its first `Component`
      decorator: a warning when it is not a call, the option edit after the
      last property when its first argument is a non-empty object literal,
      and otherwise the error of the read that throws. */
  lemma ClassPlanAt(ds: seq<Decorator>, i: nat)
    requires i < |ds| && IsComponent(ds[i])
    requires forall j :: 0 <= j < i ==> Rejected(ds[j])
    ensures !ds[i].expression.Call? ==> PlanClass(Some(ds)) == Success(NotRecognised)
    ensures ds[i].expression.Call? && |ds[i].expression.arguments| == 0 ==>
      PlanClass(Some(ds)) == Failure(ArgumentMissing)
    ensures ds[i].expression.Call? && |ds[i].expression.arguments| > 0 && !ds[i].expression.arguments[0].ObjectLiteral? ==>
      PlanClass(Some(ds)) == Failure(ArgumentNotObject)
    ensures ds[i].expression.Call? && |ds[i].expression.arguments| > 0 && ds[i].expression.arguments[0].ObjectLiteral?
            && |ds[i].expression.arguments[0].properties| == 0 ==>
      PlanClass(Some(ds)) == Failure(NoComponentOptions)
    ensures HasComponentOptions(ds[i].expression) ==>
      PlanClass(Some(ds)) == Success(OptionEdit(Insertion(OptionEnd(ds[i].expression.arguments[0].properties), OptionPayload)))
  {
  }

  /** A decorator that cannot be read, before any `Component` decorator,
      makes the class fail. */
  lemma ClassUnreadable(ds: seq<Decorator>, k: nat)
    requires k < |ds| && CalleeName(ds[k].expression).Failure?
    requires forall j :: 0 <= j < k ==> Rejected(ds[j])
    ensures PlanClass(Some(ds)) == Failure(DecoratorUnreadable)
  {
  }

  /** A class the patcher handles without throwing: its first `Component`
      decorator, after rejected ones only, is either not a call or is called
      with a non-empty options object. */
  predicate ClassPatchable(ds: seq<Decorator>) {
    exists i :: 0 <= i < |ds| && IsComponent(ds[i])
                && (forall j :: 0 <= j < i ==> Rejected(ds[j]))
                && (!ds[i].expression.Call? || HasComponentOptions(ds[i].expression))
  }

  /** An import the patcher handles without throwing: one from another
      module, or an `@angular/core` import with a non-empty list of named
      imports. */
  predicate ImportPatchable(spec: string, clause: Option<ImportClause>) {
    spec != CoreModule
    || (clause.Some? && IsNamedImports(clause.value.namedBindings)
        && |clause.value.namedBindings.value.elements| > 0)
  }

  /** A top-level child the patcher handles without throwing. */
  predicate Patchable(s: Statement) {
    match s
    case ClassDeclaration(ds) => ds.Some? && ClassPatchable(ds.value)
    case ImportDeclaration(spec, clause) => ImportPatchable(spec, clause)
    case OtherStatement => true
  }

  /** A class plans without throwing exactly when it is patchable. */
  lemma ClassPlansIff(ds: seq<Decorator>)
    ensures PlanClass(Some(ds)).Success? <==> ClassPatchable(ds)
  {
    var r := PlanClass(Some(ds));
    if r.Success? {
      var i :| 0 <= i < |ds| && IsComponent(ds[i]) && (forall j :: 0 <= j < i ==> Rejected(ds[j]))
               && (r.value.NotRecognised? <==> !ds[i].expression.Call?)
               && (r.value.OptionEdit? ==> AnchorsOption(ds[i], r.value.edit));
      assert !ds[i].expression.Call? || HasComponentOptions(ds[i].expression);
    }
    if ClassPatchable(ds) {
      var i :| 0 <= i < |ds| && IsComponent(ds[i]) && (forall j :: 0 <= j < i ==> Rejected(ds[j]))
               && (!ds[i].expression.Call? || HasComponentOptions(ds[i].expression));
      ClassPlanAt(ds, i);
    }
  }

  /** One child plans without throwing exactly when it is patchable. */
  lemma StatementPlansIff(s: Statement)
    ensures PlanStatement(s).Success? <==> Patchable(s)
  {
    if s.ClassDeclaration? && s.decorators.Some? {
      ClassPlansIff(s.decorators.value);
    }
  }

  /** The walk succeeds exactly when every top-level child is patchable:
      a well-formed `app.component.ts` is always planned. */
  lemma WalkSucceedsIff(nodes: seq<Statement>)
    ensures Walk(nodes).Success? <==> forall j :: 0 <= j < |nodes| ==> Patchable(nodes[j])
  {
    WalkSpec(nodes);
    forall j | 0 <= j < |nodes|
      ensures PlanStatement(nodes[j]).Success? <==> Patchable(nodes[j])
    {
      StatementPlansIff(nodes[j]);
    }
  }

  lemma StatementWithinPlansInRange(s: Statement, n: nat)
    requires StatementWithin(s, n) && PlanStatement(s).Success?
    ensures InRange(PlanStatement(s).value.edits, n)
  {
    if s.ClassDeclaration? && PlanClass(s.decorators).value.OptionEdit? {
      var ds := s.decorators.value;
      var i := FindComponent(ds, 0).value.value;
      var expr := ds[i].expression;
      assert ds[i] in ds;
      assert expr.Call?;
      assert expr.arguments[0] in expr.arguments;
      assert ExprWithin(expr, n);
      assert ExprWithin(expr.arguments[0], n);
      var props := expr.arguments[0].properties;
      assert props[|props| - 1] in props;
      assert PlanStatement(s).value.edits == [Insertion(OptionEnd(props), OptionPayload)];
    }
  }

  /** Offsets taken from a tree parsed from the text are anchors in it. */
  lemma {:induction false} WalkWithin(nodes: seq<Statement>, n: nat)
    requires TreeWithin(nodes, n) && Walk(nodes).Success?
    ensures InRange(Walk(nodes).value.edits, n)
  {
    if nodes != [] {
      StatementWithinPlansInRange(nodes[0], n);
      assert TreeWithin(nodes[1..], n) by {
        forall j | 0 <= j < |nodes[1..]| ensures StatementWithin(nodes[1..][j], n) {
          assert nodes[1..][j] == nodes[j + 1];
        }
      }
      WalkWithin(nodes[1..], n);
      InRangeAppend(PlanStatement(nodes[0]).value.edits, Walk(nodes[1..]).value.edits, n);
    }
  }

  // ---------------------------------------------------------------------
  // Properties of the whole patch

  /** When the entry file exists, the parser's offsets lie within its text
      and no step throws, the commit cannot fail. */
  lemma PatchCommits(files: Host.Files, cwd: string, parse: string -> seq<Statement>)
    requires Host.Key(AppComponentPath) in files
    requires var text := files[Host.Key(AppComponentPath)];
             TreeWithin(parse(text), |text|) && Walk(parse(text)).Success?
    ensures AddOnPushToComponent(files, cwd, parse).Success?
  {
    AbsoluteNameIgnoresCwd(cwd, AppComponentPath);
    var text := files[Host.Key(AppComponentPath)];
    WalkWithin(parse(text), |text|);
  }

  /** A stored `app.component.ts` whose every top-level child is patchable,
      parsed with offsets inside its text, is always patched. */
  lemma WellFormedFilePatched(files: Host.Files, cwd: string, parse: string -> seq<Statement>)
    requires Host.Key(AppComponentPath) in files
    requires var nodes := parse(files[Host.Key(AppComponentPath)]);
             && TreeWithin(nodes, |files[Host.Key(AppComponentPath)]|)
             && forall j :: 0 <= j < |nodes| ==> Patchable(nodes[j])
    ensures AddOnPushToComponent(files, cwd, parse).Success?
  {
    WalkSucceedsIff(parse(files[Host.Key(AppComponentPath)]));
    PatchCommits(files, cwd, parse);
  }

  /** The patched file is the original text with the planned payloads
      inserted: deleting the inserted fragments gives back the original text,
      and the fragments are exactly the planned payloads. */
  lemma PatchInterleaves(files: Host.Files, cwd: string, parse: string -> seq<Statement>)
    requires AddOnPushToComponent(files, cwd, parse).Success?
    ensures var key := Host.Key(AppComponentPath);
            var text := files[key];
            var plan := Walk(parse(text)).value;
            && InRange(plan.edits, |text|)
            && AddOnPushToComponent(files, cwd, parse).value.files[key] == Flatten(Layout(text, plan.edits, 0))
            && KeptChars(Layout(text, plan.edits, 0)) == text
            && multiset(InsertedTexts(Layout(text, plan.edits, 0))) == multiset(Payloads(plan.edits))
  {
    AbsoluteNameIgnoresCwd(cwd, AppComponentPath);
    var key := Host.Key(AppComponentPath);
    var text := files[key];
    var plan := Walk(parse(text)).value;
    CommitInterleaves(text, plan.edits);
  }

  // ---------------------------------------------------------------------
  // No idempotence guard

  /** `@Component({ ... })` on a class. */
  function ComponentClass(props: seq<Property>): Statement {
    ClassDeclaration(Some([Decorator(Call(Identifier(ComponentName), [ObjectLiteral(props)]))]))
  }

  /** `import { ... } from '@angular/core';` */
  function CoreImport(elements: seq<ImportSpecifier>): Statement {
    ImportDeclaration(CoreModule, Some(ImportClause(Some(NamedImports(elements)))))
  }

  /** The text after one patch of a file whose last import name ends at o1
      and whose last component option ends at o2. */
  function Once(text: string, o1: nat, o2: nat): string
    requires o1 <= o2 <= |text|
  {
    text[..o1] + ImportPayload + text[o1..o2] + OptionPayload + text[o2..]
  }

  lemma WalkCanonical(elements: seq<ImportSpecifier>, props: seq<Property>)
    requires |elements| > 0 && |props| > 0
    ensures Walk([CoreImport(elements), ComponentClass(props)])
         == Success(Plan([Insertion(ImportEnd(elements), ImportPayload),
                          Insertion(OptionEnd(props), OptionPayload)], 0))
  {
    var nodes := [CoreImport(elements), ComponentClass(props)];
    var e1 := Insertion(ImportEnd(elements), ImportPayload);
    var e2 := Insertion(OptionEnd(props), OptionPayload);
    assert PlanStatement(nodes[0]) == Success(Plan([e1], 0));
    assert FindComponent([Decorator(Call(Identifier(ComponentName), [ObjectLiteral(props)]))], 0) == Success(Some(0));
    assert PlanStatement(nodes[1]) == Success(Plan([e2], 0));
    assert nodes[1..] == [nodes[1]];
    assert nodes[1..][1..] == [];
    assert Walk([]) == Success(Plan([], 0));
    assert [e2] + [] == [e2];
    assert Walk(nodes[1..]) == Success(Plan([e2], 0));
    assert [e1] + [e2] == [e1, e2];
  }

  lemma SpliceOne(t: string, e: Insertion)
    requires e.offset <= |t|
    ensures InRange([e], |t|)
    ensures Splice(t, [e]) == t[..e.offset] + e.text + t[e.offset..]
  {
    assert [e][..0] == [];
  }

  lemma SpliceTwo(text: string, e1: Insertion, e2: Insertion)
    requires e1.offset < e2.offset <= |text|
    ensures Ascending([e1, e2]) && InRange([e1, e2], |text|)
    ensures Splice(text, [e1, e2]) == Splice(text[..e2.offset] + e2.text + text[e2.offset..], [e1])
  {
    assert [e1, e2][..1] == [e1];
  }

  /** Committing two insertions at increasing anchors splices both in. */
  lemma CommitTwoAt(text: string, e1: Insertion, e2: Insertion)
    requires e1.offset < e2.offset <= |text|
    ensures Commit(text, [e1, e2])
         == Success(text[..e1.offset] + e1.text + text[e1.offset..e2.offset] + e2.text + text[e2.offset..])
  {
    var o1, o2 := e1.offset, e2.offset;
    SpliceTwo(text, e1, e2);
    CommitIsSplice(text, [e1, e2]);
    var spliced := text[..o2] + e2.text + text[o2..];
    SpliceOne(spliced, e1);
    assert spliced[..o1] == text[..o1];
    assert spliced[o1..] == text[o1..o2] + e2.text + text[o2..];
    assert Splice(spliced, [e1]) == spliced[..o1] + e1.text + spliced[o1..];
    assert spliced[..o1] + e1.text + spliced[o1..]
        == text[..o1] + e1.text + text[o1..o2] + e2.text + text[o2..];
  }

  /** Committing the two canonical insertions gives `Once`. */
  lemma CommitTwo(text: string, o1: nat, o2: nat)
    requires o1 < o2 <= |text|
    ensures Commit(text, [Insertion(o1, ImportPayload), Insertion(o2, OptionPayload)])
         == Success(Once(text, o1, o2))
  {
    CommitTwoAt(text, Insertion(o1, ImportPayload), Insertion(o2, OptionPayload));
  }

  /** One run on the canonical shape (one `@angular/core` import, one
      component class) inserts each payload once at its anchor. */
  lemma CanonicalRun(files: Host.Files, cwd: string, parse: string -> seq<Statement>,
                     elements: seq<ImportSpecifier>, props: seq<Property>)
    requires Host.Key(AppComponentPath) in files
    requires |elements| > 0 && |props| > 0
    requires var text := files[Host.Key(AppComponentPath)];
             && ImportEnd(elements) < OptionEnd(props) <= |text|
             && parse(text) == [CoreImport(elements), ComponentClass(props)]
    ensures var key := Host.Key(AppComponentPath);
            var text := files[key];
            AddOnPushToComponent(files, cwd, parse)
              == Success(Patched(files[key := Once(text, ImportEnd(elements), OptionEnd(props))], 0))
  {
    AbsoluteNameIgnoresCwd(cwd, AppComponentPath);
    var text := files[Host.Key(AppComponentPath)];
    WalkCanonical(elements, props);
    CommitTwo(text, ImportEnd(elements), OptionEnd(props));
  }

  /** Inserting two payloads again right after where they were inserted
      doubles each of them. */
  lemma InsertAgain(text: string, o1: nat, o2: nat, p1: string, p2: string)
    requires o1 < o2 <= |text|
    ensures var once := text[..o1] + p1 + text[o1..o2] + p2 + text[o2..];
            var o1' := o1 + |p1|;
            var o2' := o2 + |p1| + |p2|;
            o1' < o2' <= |once|
            && once[..o1'] + p1 + once[o1'..o2'] + p2 + once[o2'..]
               == text[..o1] + p1 + p1 + text[o1..o2] + p2 + p2 + text[o2..]
  {
    var once := text[..o1] + p1 + text[o1..o2] + p2 + text[o2..];
    var o1' := o1 + |p1|;
    var o2' := o2 + |p1| + |p2|;
    assert once[..o1'] == text[..o1] + p1;
    assert once[o1'..o2'] == text[o1..o2] + p2;
    assert once[o2'..] == text[o2..];
  }

  /** Slicing the once-patched text at the shifted anchors. */
  lemma OnceTwice(text: string, o1: nat, o2: nat)
    requires o1 < o2 <= |text|
    ensures var once := Once(text, o1, o2);
            var o1' := o1 + |ImportPayload|;
            var o2' := o2 + |ImportPayload| + |OptionPayload|;
            o1' < o2' <= |once|
            && Once(once, o1', o2')
               == text[..o1] + ImportPayload + ImportPayload + text[o1..o2]
                  + OptionPayload + OptionPayload + text[o2..]
  {
    InsertAgain(text, o1, o2, ImportPayload, OptionPayload);
  }

  /** The import list as the compiler parses it after one patch. */
  function WithImportedName(elements: seq<ImportSpecifier>): (r: seq<ImportSpecifier>)
    requires |elements| > 0
    ensures |r| > 0 && ImportEnd(r) == ImportEnd(elements) + |ImportPayload|
  {
    elements + [ImportSpecifier("ChangeDetectionStrategy", ImportEnd(elements) + |ImportPayload|)]
  }

  /** The component options as the compiler parses them after one patch
      (shifted by both insertions). */
  function WithOption(props: seq<Property>): (r: seq<Property>)
    requires |props| > 0
    ensures |r| > 0 && OptionEnd(r) == OptionEnd(props) + |ImportPayload| + |OptionPayload|
  {
    props + [Property("changeDetection", OptionEnd(props) + |ImportPayload| + |OptionPayload|)]
  }

  /** Patching the patched file again appends a second option and a second
      import name: nothing guards against re-application. The second parse
      is the first tree with the inserted name and option appended, at their
      shifted offsets. */
  lemma SecondRunDuplicates(files: Host.Files, cwd: string, parse: string -> seq<Statement>,
                            text: string, elements: seq<ImportSpecifier>, props: seq<Property>)
    requires Host.Key(AppComponentPath) in files && files[Host.Key(AppComponentPath)] == text
    requires |elements| > 0 && |props| > 0
    requires ImportEnd(elements) < OptionEnd(props) <= |text|
    requires parse(text) == [CoreImport(elements), ComponentClass(props)]
    requires parse(Once(text, ImportEnd(elements), OptionEnd(props)))
          == [CoreImport(WithImportedName(elements)), ComponentClass(WithOption(props))]
    ensures AddOnPushToComponent(files, cwd, parse)
         == Success(Patched(files[Host.Key(AppComponentPath) := Once(text, ImportEnd(elements), OptionEnd(props))], 0))
    ensures AddOnPushToComponent(files[Host.Key(AppComponentPath) := Once(text, ImportEnd(elements), OptionEnd(props))], cwd, parse)
         == Success(Patched(files[Host.Key(AppComponentPath) :=
                      text[..ImportEnd(elements)] + ImportPayload + ImportPayload
                      + text[ImportEnd(elements)..OptionEnd(props)] + OptionPayload + OptionPayload
                      + text[OptionEnd(props)..]], 0))
  {
    CanonicalRun(files, cwd, parse, elements, props);
    SecondRun(files, cwd, parse, text, elements, props);
  }

  /** Patching a stored text whose parse has the canonical shape. */
  lemma Rerun(files: Host.Files, cwd: string, parse: string -> seq<Statement>,
              once: string, elements: seq<ImportSpecifier>, props: seq<Property>)
    requires |elements| > 0 && |props| > 0
    requires ImportEnd(elements) < OptionEnd(props) <= |once|
    requires parse(once) == [CoreImport(elements), ComponentClass(props)]
    ensures AddOnPushToComponent(files[Host.Key(AppComponentPath) := once], cwd, parse)
         == Success(Patched(files[Host.Key(AppComponentPath) := Once(once, ImportEnd(elements), OptionEnd(props))], 0))
  {
    var key := Host.Key(AppComponentPath);
    CanonicalRun(files[key := once], cwd, parse, elements, props);
    Host.Overwrite(files, key, once, Once(once, ImportEnd(elements), OptionEnd(props)));
  }

  lemma SecondRun(files: Host.Files, cwd: string, parse: string -> seq<Statement>,
                  text: string, elements: seq<ImportSpecifier>, props: seq<Property>)
    requires |elements| > 0 && |props| > 0
    requires ImportEnd(elements) < OptionEnd(props) <= |text|
    requires parse(Once(text, ImportEnd(elements), OptionEnd(props)))
          == [CoreImport(WithImportedName(elements)), ComponentClass(WithOption(props))]
    ensures AddOnPushToComponent(files[Host.Key(AppComponentPath) := Once(text, ImportEnd(elements), OptionEnd(props))], cwd, parse)
         == Success(Patched(files[Host.Key(AppComponentPath) :=
                      text[..ImportEnd(elements)] + ImportPayload + ImportPayload
                      + text[ImportEnd(elements)..OptionEnd(props)] + OptionPayload + OptionPayload
                      + text[OptionEnd(props)..]], 0))
  {
    var o1 := ImportEnd(elements);
    var o2 := OptionEnd(props);
    var once := Once(text, o1, o2);
    var elements', props' := WithImportedName(elements), WithOption(props);
    assert ImportEnd(elements') == o1 + |ImportPayload|;
    assert OptionEnd(props') == o2 + |ImportPayload| + |OptionPayload|;
    OnceTwice(text, o1, o2);
    Rerun(files, cwd, parse, once, elements', props');
  }
}
