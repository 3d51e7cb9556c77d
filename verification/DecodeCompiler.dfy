/** The decode part of the ISA description language: nested `decode` blocks with formats
    and defaults, the parser's actions that turn them into a nested switch, and the proof that the
    switch decodes what the description says. */
module DecodeCompiler {
  import opened Options
  import opened SwitchCode

  // ---------- the description ----------

  datatype Inst = Implicit(name: string, args: seq<string>) | Explicit(format: string, name: string, args: seq<string>)

  /** A case list: the keyword `default`, or a constant, or either followed by more constants. */
  datatype Labels = OnDefault | OnConst(c: Const) | Also(first: Labels, c: Const)

  datatype Block = Block(field: string, byDefault: Option<Inst>, stmts: Stmts)
  datatype Stmts = One(stmt: Stmt) | More(stmt: Stmt, rest: Stmts)
  datatype Stmt = Format(id: string, stmts: Stmts) | Case(labels: Labels, target: Target)
  datatype Target = ToInst(inst: Inst) | ToBlock(block: Block)

  // ---------- what a description means ----------

  /** The innermost enclosing format decides an instruction without a format of its own. */
  function Resolved(inst: Inst, format: Option<string>): Option<Instr> {
    match inst
    case Explicit(f, name, args) => Some(Instr(f, name, args))
    case Implicit(name, args) => if format.Some? then Some(Instr(format.value, name, args)) else None
  }

  /** A statement's target, and the format it stands in. */
  datatype Arm = Arm(target: Target, format: Option<string>)

  function Constants(labels: Labels): seq<Const> {
    match labels
    case OnDefault => []
    case OnConst(c) => [c]
    case Also(first, c) => Constants(first) + [c]
  }

  predicate HasDefault(labels: Labels) {
    labels.OnDefault? || (labels.Also? && HasDefault(labels.first))
  }

  ghost predicate Covers(labels: Labels, v: int, env: Env) {
    exists i :: 0 <= i < |Constants(labels)| && env.Value(Constants(labels)[i]) == v
  }

  /** The first statement that lists the value. */
  ghost function Matching(ss: Stmts, format: Option<string>, v: int, env: Env): (arm: Option<Arm>)
    ensures arm.Some? ==> SizeOfTarget(arm.value.target) < SizeOfStmts(ss)
    decreases ss
  {
    match ss
    case One(s) => MatchingIn(s, format, v, env)
    case More(s, rest) =>
      var arm := MatchingIn(s, format, v, env);
      if arm.Some? then arm else Matching(rest, format, v, env)
  }

  ghost function MatchingIn(s: Stmt, format: Option<string>, v: int, env: Env): (arm: Option<Arm>)
    ensures arm.Some? ==> SizeOfTarget(arm.value.target) < SizeOfStmt(s)
    decreases s
  {
    match s
    case Format(id, ss) => Matching(ss, Some(id), v, env)
    case Case(labels, target) => if Covers(labels, v, env) then Some(Arm(target, format)) else None
  }

  /** The `default` statement. */
  ghost function Fallback(ss: Stmts, format: Option<string>): (arm: Option<Arm>)
    ensures arm.Some? ==> SizeOfTarget(arm.value.target) < SizeOfStmts(ss)
    decreases ss
  {
    match ss
    case One(s) => FallbackIn(s, format)
    case More(s, rest) =>
      var arm := FallbackIn(s, format);
      if arm.Some? then arm else Fallback(rest, format)
  }

  ghost function FallbackIn(s: Stmt, format: Option<string>): (arm: Option<Arm>)
    ensures arm.Some? ==> SizeOfTarget(arm.value.target) < SizeOfStmt(s)
    decreases s
  {
    match s
    case Format(id, ss) => Fallback(ss, Some(id))
    case Case(labels, target) => if HasDefault(labels) then Some(Arm(target, format)) else None
  }

  /** The instruction that a block decodes to: the matching case, else the block's own default
      statement, else the nearest enclosing default. */
  ghost function Meaning(b: Block, format: Option<string>, outer: Option<Instr>, env: Env): Option<Instr>
    decreases SizeOfBlock(b)
  {
    var inherited := if b.byDefault.Some? then Resolved(b.byDefault.value, format) else outer;
    var arm := Matching(b.stmts, format, env.fields(b.field), env);
    var chosen := if arm.Some? then arm else Fallback(b.stmts, format);
    if chosen.Some? then Aim(chosen.value, inherited, env) else inherited
  }

  ghost function Aim(arm: Arm, inherited: Option<Instr>, env: Env): Option<Instr>
    decreases SizeOfTarget(arm.target)
  {
    match arm.target
    case ToInst(inst) => Resolved(inst, arm.format)
    case ToBlock(block) => Meaning(block, arm.format, inherited, env)
  }

  ghost function SizeOfBlock(b: Block): nat { 1 + SizeOfStmts(b.stmts) }

  ghost function SizeOfStmts(ss: Stmts): nat {
    match ss
    case One(s) => 1 + SizeOfStmt(s)
    case More(s, rest) => 1 + SizeOfStmt(s) + SizeOfStmts(rest)
  }

  ghost function SizeOfStmt(s: Stmt): nat {
    match s
    case Format(_, ss) => 1 + SizeOfStmts(ss)
    case Case(_, target) => 1 + SizeOfTarget(target)
  }

  ghost function SizeOfTarget(target: Target): nat {
    match target
    case ToInst(_) => 0
    case ToBlock(block) => 1 + SizeOfBlock(block)
  }

  // ---------- small descriptions and what they mean ----------

  lemma {:induction false} CoversSpelled(labels: Labels, v: int, env: Env)
    ensures Covers(labels, v, env) <==>
            match labels
            case OnDefault => false
            case OnConst(c) => env.Value(c) == v
            case Also(first, c) => Covers(first, v, env) || env.Value(c) == v
  {
    var cs := Constants(labels);
    match labels
    case OnDefault =>
    case OnConst(c) => assert cs[0] == c;
    case Also(first, c) =>
      assert cs[|cs| - 1] == c;
      if Covers(first, v, env) {
        var i :| 0 <= i < |Constants(first)| && env.Value(Constants(first)[i]) == v;
        assert cs[i] == Constants(first)[i];
      }
  }

  /** A case list with its target under a format, as it is looked up. */
  lemma CaseApplies(labels: Labels, inst: Inst, format: Option<string>, v: int, env: Env)
    ensures var arm := Arm(ToInst(inst), format);
            && Matching(One(Case(labels, ToInst(inst))), format, v, env) == (if Covers(labels, v, env) then Some(arm) else None)
            && Fallback(One(Case(labels, ToInst(inst))), format) == (if HasDefault(labels) then Some(arm) else None)
            && Aim(arm, None, env) == Resolved(inst, format)
  {
  }

  /** A format applies to its own statements only, and an instruction's own format comes first. */
  lemma FormatsApply(b: Block, fa: string, fb: string, fc: string, add: string, sub: string, mul: string, env: Env)
    requires b.byDefault == None
    requires b.stmts == More(Format(fa, One(Case(OnConst(Lit(0)), ToInst(Implicit(add, []))))),
                             More(Case(Also(OnConst(Lit(1)), Lit(2)), ToInst(Implicit(sub, []))),
                                  One(Case(OnDefault, ToInst(Explicit(fc, mul, []))))))
    ensures var v := env.fields(b.field);
            Meaning(b, Some(fb), None, env) ==
            Some(if v == 0 then Instr(fa, add, []) else if v == 1 || v == 2 then Instr(fb, sub, []) else Instr(fc, mul, []))
  {
    var v := env.fields(b.field);
    CoversSpelled(OnConst(Lit(0)), v, env);
    CoversSpelled(OnConst(Lit(1)), v, env);
    CoversSpelled(Also(OnConst(Lit(1)), Lit(2)), v, env);
    CoversSpelled(OnDefault, v, env);
    var rest := b.stmts.rest;
    var last := rest.rest;
    CaseApplies(OnConst(Lit(0)), Implicit(add, []), Some(fa), v, env);
    CaseApplies(OnDefault, Explicit(fc, mul, []), Some(fb), v, env);
    hide Covers, Constants;
    assert MatchingIn(b.stmts.stmt, Some(fb), v, env) == (if v == 0 then Some(Arm(ToInst(Implicit(add, [])), Some(fa))) else None);
    assert MatchingIn(rest.stmt, Some(fb), v, env) == (if v == 1 || v == 2 then Some(Arm(ToInst(Implicit(sub, [])), Some(fb))) else None);
    assert Matching(rest, Some(fb), v, env) == MatchingIn(rest.stmt, Some(fb), v, env);
    assert Fallback(rest, Some(fb)) == Fallback(last, Some(fb));
    assert FallbackIn(b.stmts.stmt, Some(fb)) == None;
  }

  /** An inner block without a default of its own uses that of the block around it. */
  lemma DefaultsApply(b: Block, inner: Block, fmt: string, nop: string, add: string, env: Env)
    requires inner.byDefault == None && inner.stmts == One(Case(OnConst(Lit(0)), ToInst(Implicit(add, []))))
    requires b.byDefault == Some(Implicit(nop, [])) && b.stmts == One(Case(OnConst(Lit(0)), ToBlock(inner)))
    ensures Meaning(b, Some(fmt), None, env) ==
            Some(if env.fields(b.field) == 0 && env.fields(inner.field) == 0 then Instr(fmt, add, []) else Instr(fmt, nop, []))
  {
    CoversSpelled(OnConst(Lit(0)), env.fields(b.field), env);
    CoversSpelled(OnConst(Lit(0)), env.fields(inner.field), env);
    CaseApplies(OnConst(Lit(0)), Implicit(add, []), Some(fmt), env.fields(inner.field), env);
    hide Covers, Constants;
    var outer := Some(Instr(fmt, nop, []));
    assert Meaning(inner, Some(fmt), outer, env) == if env.fields(inner.field) == 0 then Some(Instr(fmt, add, [])) else outer;
    assert Aim(Arm(ToBlock(inner), Some(fmt)), outer, env) == Meaning(inner, Some(fmt), outer, env);
    var v, arm := env.fields(b.field), Arm(ToBlock(inner), Some(fmt));
    assert MatchingIn(b.stmts.stmt, Some(fmt), v, env) == if v == 0 then Some(arm) else None;
    assert FallbackIn(b.stmts.stmt, Some(fmt)) == None && Resolved(b.byDefault.value, Some(fmt)) == outer;
    assert Matching(b.stmts, Some(fmt), v, env) == MatchingIn(b.stmts.stmt, Some(fmt), v, env);
    assert Fallback(b.stmts, Some(fmt)) == None;
  }

  // ---------- the parser's actions ----------

  datatype Error = NoActiveFormat | UnknownFormat | TwoDefaults | MissingDefault

  datatype Result<+T> = Ok(value: T) | Err(error: Error)

  /** Generated code: the definitions that go to the header, decoder and exec streams, and the
      piece of the decode function. */
  datatype GenCode = GenCode(defined: seq<Instr>, decode: seq<Item>, hasDefault: bool) {
    function Plus(other: GenCode): GenCode {
      GenCode(defined + other.defined, decode + other.decode, hasDefault || other.hasDefault)
    }

    function Wrap(pre: seq<Item>, post: seq<Item>): GenCode {
      this.(decode := pre + decode + post)
    }
  }

  /** The code of an instruction definition. */
  function DefineInst(i: Instr): GenCode {
    GenCode([i], [Define(i)], false)
  }

  /** The code of a block's default clause, as it waits on the default stack. */
  function DefaultCode(i: Instr): GenCode {
    DefineInst(i).Wrap([DefaultLabel], [Break])
  }

  function LabelItems(labels: Labels): (items: seq<Item>)
    ensures items != []
  {
    match labels
    case OnDefault => [DefaultLabel]
    case OnConst(c) => [CaseLabel(c)]
    case Also(first, c) => LabelItems(first) + [CaseLabel(c)]
  }

  function CompileInst(inst: Inst, formats: set<string>, format: Option<string>): Result<Instr> {
    match inst
    case Explicit(f, name, args) => if f in formats then Ok(Instr(f, name, args)) else Err(UnknownFormat)
    case Implicit(name, args) => if format.Some? then Ok(Instr(format.value, name, args)) else Err(NoActiveFormat)
  }

  /** The default that holds inside a block. */
  function Inherit(b: Block, formats: set<string>, format: Option<string>, byDefault: Option<GenCode>): Result<Option<GenCode>> {
    if b.byDefault.None? then Ok(byDefault)
    else
      match CompileInst(b.byDefault.value, formats, format)
      case Err(e) => Err(e)
      case Ok(i) => Ok(Some(DefaultCode(i)))
  }

  function CompileBlock(b: Block, formats: set<string>, format: Option<string>, byDefault: Option<GenCode>): Result<GenCode> {
    match Inherit(b, formats, format, byDefault)
    case Err(e) => Err(e)
    case Ok(inner) =>
      match CompileStmts(b.stmts, formats, format, inner)
      case Err(e) => Err(e)
      case Ok(g) => Close(b.field, g, inner)
  }

  function Close(field: string, g: GenCode, inner: Option<GenCode>): Result<GenCode> {
    if g.hasDefault then Ok(g.(decode := [Switch(field, g.decode)]))
    else if inner.None? then Err(MissingDefault)
    else
      var all := g.Plus(inner.value);
      Ok(all.(decode := [Switch(field, all.decode)]))
  }

  function CompileStmts(ss: Stmts, formats: set<string>, format: Option<string>, byDefault: Option<GenCode>): Result<GenCode> {
    match ss
    case One(s) => CompileStmt(s, formats, format, byDefault)
    case More(s, rest) =>
      match CompileStmt(s, formats, format, byDefault)
      case Err(e) => Err(e)
      case Ok(g) =>
        match CompileStmts(rest, formats, format, byDefault)
        case Err(e) => Err(e)
        case Ok(h) => if g.hasDefault && h.hasDefault then Err(TwoDefaults) else Ok(g.Plus(h))
  }

  function CompileStmt(s: Stmt, formats: set<string>, format: Option<string>, byDefault: Option<GenCode>): Result<GenCode> {
    match s
    case Format(id, ss) =>
      if id !in formats then Err(UnknownFormat) else CompileStmts(ss, formats, Some(id), byDefault)
    case Case(labels, ToInst(inst)) =>
      (match CompileInst(inst, formats, format)
       case Err(e) => Err(e)
       case Ok(i) => Ok(DefineInst(i).Wrap(LabelItems(labels), [Break]).(hasDefault := labels == OnDefault)))
    case Case(labels, ToBlock(block)) =>
      match CompileBlock(block, formats, format, byDefault)
      case Err(e) => Err(e)
      case Ok(g) => Ok(g.Wrap(LabelItems(labels), []).(hasDefault := labels == OnDefault))
  }

  // ---------- what the parser accepts ----------

  /** The instruction has a format, and a known one. */
  predicate Known(inst: Inst, formats: set<string>, format: Option<string>) {
    if inst.Explicit? then inst.format in formats else format.Some?
  }

  /** How many of a block's own statements are plain `default` statements. */
  function DefaultStmts(ss: Stmts): nat {
    DefaultStmtsIn(ss.stmt) + if ss.More? then DefaultStmts(ss.rest) else 0
  }

  function DefaultStmtsIn(s: Stmt): nat {
    match s
    case Format(_, ss) => DefaultStmts(ss)
    case Case(labels, _) => if labels == OnDefault then 1 else 0
  }

  /** All formats are known, and every block has one default statement, or none but a default in scope. */
  predicate Acceptable(b: Block, formats: set<string>, format: Option<string>, scoped: bool) {
    var inScope := b.byDefault.Some? || scoped;
    && (b.byDefault.Some? ==> Known(b.byDefault.value, formats, format))
    && AcceptableStmts(b.stmts, formats, format, inScope)
    && DefaultStmts(b.stmts) <= 1 && (DefaultStmts(b.stmts) == 0 ==> inScope)
  }

  predicate AcceptableStmts(ss: Stmts, formats: set<string>, format: Option<string>, scoped: bool) {
    AcceptableStmt(ss.stmt, formats, format, scoped) && (ss.More? ==> AcceptableStmts(ss.rest, formats, format, scoped))
  }

  predicate AcceptableStmt(s: Stmt, formats: set<string>, format: Option<string>, scoped: bool) {
    match s
    case Format(id, ss) => id in formats && AcceptableStmts(ss, formats, Some(id), scoped)
    case Case(_, ToInst(inst)) => Known(inst, formats, format)
    case Case(_, ToBlock(block)) => Acceptable(block, formats, format, scoped)
  }

  lemma {:induction false} StmtsAccepted(ss: Stmts, formats: set<string>, format: Option<string>, byDefault: Option<GenCode>)
    ensures var r := CompileStmts(ss, formats, format, byDefault);
            && (r.Ok? <==> AcceptableStmts(ss, formats, format, byDefault.Some?) && DefaultStmts(ss) <= 1)
            && (r.Ok? ==> (r.value.hasDefault <==> DefaultStmts(ss) == 1))
    decreases ss, 1
  {
    StmtAccepted(ss.stmt, formats, format, byDefault);
    if !ss.More? {
    } else {
      StmtsAccepted(ss.rest, formats, format, byDefault);
    }
  }

  lemma {:induction false} StmtAccepted(s: Stmt, formats: set<string>, format: Option<string>, byDefault: Option<GenCode>)
    ensures var r := CompileStmt(s, formats, format, byDefault);
            && (r.Ok? <==> AcceptableStmt(s, formats, format, byDefault.Some?) && DefaultStmtsIn(s) <= 1)
            && (r.Ok? ==> (r.value.hasDefault <==> DefaultStmtsIn(s) == 1))
    decreases s
  {
    match s
    case Format(id, ss) => StmtsAccepted(ss, formats, Some(id), byDefault);
    case Case(_, ToInst(_)) =>
    case Case(_, ToBlock(block)) => Accepted(block, formats, format, byDefault);
  }

  /** The parser accepts exactly the acceptable descriptions. */
  lemma {:induction false} Accepted(b: Block, formats: set<string>, format: Option<string>, byDefault: Option<GenCode>)
    ensures CompileBlock(b, formats, format, byDefault).Ok? <==> Acceptable(b, formats, format, byDefault.Some?)
    decreases b
  {
    var inner := Inherit(b, formats, format, byDefault);
    if inner.Ok? {
      StmtsAccepted(b.stmts, formats, format, inner.value);
    }
  }

  /** An instruction with an unknown format, or without any. */
  predicate FaultyInst(inst: Inst, formats: set<string>, format: Option<string>, e: Error) {
    match e
    case UnknownFormat => inst.Explicit? && inst.format !in formats
    case NoActiveFormat => inst.Implicit? && format.None?
    case _ => false
  }

  /** Somewhere in the description is what the error says. */
  predicate Faulty(b: Block, formats: set<string>, format: Option<string>, scoped: bool, e: Error) {
    var inScope := b.byDefault.Some? || scoped;
    || (b.byDefault.Some? && FaultyInst(b.byDefault.value, formats, format, e))
    || FaultyStmts(b.stmts, formats, format, inScope, e)
    || (e == MissingDefault && DefaultStmts(b.stmts) == 0 && !inScope)
  }

  predicate FaultyStmts(ss: Stmts, formats: set<string>, format: Option<string>, scoped: bool, e: Error) {
    || FaultyStmt(ss.stmt, formats, format, scoped, e)
    || (ss.More? && FaultyStmts(ss.rest, formats, format, scoped, e))
    || (e == TwoDefaults && DefaultStmts(ss) >= 2)
  }

  predicate FaultyStmt(s: Stmt, formats: set<string>, format: Option<string>, scoped: bool, e: Error) {
    match s
    case Format(id, ss) => (e == UnknownFormat && id !in formats) || FaultyStmts(ss, formats, Some(id), scoped, e)
    case Case(_, ToInst(inst)) => FaultyInst(inst, formats, format, e)
    case Case(_, ToBlock(block)) => Faulty(block, formats, format, scoped, e)
  }

  lemma {:induction false} StmtsBlamed(ss: Stmts, formats: set<string>, format: Option<string>, byDefault: Option<GenCode>)
    ensures var r := CompileStmts(ss, formats, format, byDefault);
            r.Err? ==> FaultyStmts(ss, formats, format, byDefault.Some?, r.error)
    decreases ss, 1
  {
    StmtBlamed(ss.stmt, formats, format, byDefault);
    StmtAccepted(ss.stmt, formats, format, byDefault);
    if !ss.More? {
    } else {
      StmtsBlamed(ss.rest, formats, format, byDefault);
      StmtsAccepted(ss.rest, formats, format, byDefault);
    }
  }

  lemma {:induction false} StmtBlamed(s: Stmt, formats: set<string>, format: Option<string>, byDefault: Option<GenCode>)
    ensures var r := CompileStmt(s, formats, format, byDefault);
            r.Err? ==> FaultyStmt(s, formats, format, byDefault.Some?, r.error)
    decreases s
  {
    match s
    case Format(id, ss) => StmtsBlamed(ss, formats, Some(id), byDefault);
    case Case(_, ToInst(_)) =>
    case Case(_, ToBlock(block)) => Blamed(block, formats, format, byDefault);
  }

  /** An error is never reported without its cause. */
  lemma {:induction false} Blamed(b: Block, formats: set<string>, format: Option<string>, byDefault: Option<GenCode>)
    ensures var r := CompileBlock(b, formats, format, byDefault);
            r.Err? ==> Faulty(b, formats, format, byDefault.Some?, r.error)
    decreases b
  {
    var inner := Inherit(b, formats, format, byDefault);
    if inner.Ok? {
      StmtsBlamed(b.stmts, formats, format, inner.value);
      StmtsAccepted(b.stmts, formats, format, inner.value);
    }
  }

  // ---------- the switch decodes what the description says ----------

  /** `default` stands alone in its case list. */
  predicate Pure(labels: Labels) {
    HasDefault(labels) ==> labels == OnDefault
  }

  predicate PureBlock(b: Block) { PureStmts(b.stmts) }

  predicate PureStmts(ss: Stmts) {
    PureStmt(ss.stmt) && (ss.More? ==> PureStmts(ss.rest))
  }

  predicate PureStmt(s: Stmt) {
    match s
    case Format(_, ss) => PureStmts(ss)
    case Case(labels, target) => Pure(labels) && (target.ToBlock? ==> PureBlock(target.block))
  }

  /** The default stack's entry for an inherited default. */
  function Entered(i: Option<Instr>): Option<GenCode> {
    if i.Some? then Some(DefaultCode(i.value)) else None
  }

  /** Entered at item `i`, the code returns the instruction, and also defines it. */
  ghost predicate Yields(g: GenCode, i: nat, want: Option<Instr>, env: Env) {
    && i < |g.decode| && want.Some?
    && Exec(g.decode, i, env) == Returned(want.value) && want.value in g.defined
  }

  /** The jump to `i` is the right one for this arm, or goes nowhere when there is no arm. */
  ghost predicate Jumps(g: GenCode, i: nat, arm: Option<Arm>, inherited: Option<Instr>, env: Env) {
    if arm.None? then i == |g.decode| else Yields(g, i, Aim(arm.value, inherited, env), env)
  }

  lemma YieldsLeft(g: GenCode, h: GenCode, i: nat, want: Option<Instr>, env: Env)
    requires Yields(g, i, want, env)
    ensures Yields(g.Plus(h), i, want, env)
  {
    ExecLeft(g.decode, h.decode, i, env);
  }

  lemma YieldsRight(g: GenCode, h: GenCode, i: nat, want: Option<Instr>, env: Env)
    requires Yields(h, i, want, env)
    ensures Yields(g.Plus(h), |g.decode| + i, want, env)
  {
    ExecRight(g.decode, h.decode, i, env);
  }

  /** Running the labels in front of some code runs the code. */
  lemma {:induction false} PastLabels(items: seq<Item>, rest: seq<Item>, i: nat, env: Env)
    requires i <= |items| && forall k :: i <= k < |items| ==> items[k].CaseLabel? || items[k].DefaultLabel?
    ensures Exec(items + rest, i, env) == Exec(rest, 0, env)
    decreases |items| - i
  {
    if i == |items| {
      ExecRight(items, rest, 0, env);
    } else {
      assert (items + rest)[i] == items[i];
      PastLabels(items, rest, i + 1, env);
    }
  }

  lemma {:induction false} LabelsFound(labels: Labels, v: int, env: Env)
    ensures FindCase(LabelItems(labels), v, env) < |LabelItems(labels)| <==> Covers(labels, v, env)
    ensures FindDefault(LabelItems(labels)) < |LabelItems(labels)| <==> HasDefault(labels)
    ensures forall k :: 0 <= k < |LabelItems(labels)| ==> LabelItems(labels)[k].CaseLabel? || LabelItems(labels)[k].DefaultLabel?
  {
    match labels
    case OnDefault =>
    case OnConst(c) =>
      assert Constants(labels)[0] == c;
    case Also(first, c) =>
      LabelsFound(first, v, env);
      FindCaseConcat(LabelItems(first), [CaseLabel(c)], v, env);
      FindDefaultConcat(LabelItems(first), [CaseLabel(c)]);
      var cs := Constants(labels);
      assert cs[|cs| - 1] == c && cs[..|cs| - 1] == Constants(first);
      assert forall i :: 0 <= i < |cs| - 1 ==> cs[i] == Constants(first)[i];
  }

  /** A case whose code has no labels of its own. */
  lemma CaseJumps(labels: Labels, g: GenCode, post: seq<Item>, arm: Arm, inherited: Option<Instr>, v: int, env: Env)
    requires |g.decode| == 1 && !g.decode[0].CaseLabel? && !g.decode[0].DefaultLabel?
    requires post == [] || post == [Break]
    requires Yields(g, 0, Aim(arm, inherited, env), env)
    ensures var h := g.Wrap(LabelItems(labels), post);
            && Jumps(h, FindCase(h.decode, v, env), if Covers(labels, v, env) then Some(arm) else None, inherited, env)
            && Jumps(h, FindDefault(h.decode), if HasDefault(labels) then Some(arm) else None, inherited, env)
  {
    var items := LabelItems(labels);
    var tail := g.decode + post;
    var h := g.Wrap(items, post);
    assert h.decode == items + tail;
    hide LabelItems, Covers, HasDefault, Aim;
    LabelsFound(labels, v, env);
    FindCaseConcat(items, tail, v, env);
    FindDefaultConcat(items, tail);
    assert FindCase(tail, v, env) == |tail| == FindDefault(tail);
    ExecLeft(g.decode, post, 0, env);
    PastLabels(items, tail, FindCase(items, v, env), env);
    PastLabels(items, tail, FindDefault(items), env);
  }

  /** Joining two pieces of a switch keeps both pieces' jumps; the first piece has priority. */
  lemma JoinCase(g: GenCode, h: GenCode, a: Option<Arm>, b: Option<Arm>, inherited: Option<Instr>, v: int, env: Env)
    requires Jumps(g, FindCase(g.decode, v, env), a, inherited, env) && Jumps(h, FindCase(h.decode, v, env), b, inherited, env)
    ensures Jumps(g.Plus(h), FindCase(g.Plus(h).decode, v, env), if a.Some? then a else b, inherited, env)
  {
    FindCaseConcat(g.decode, h.decode, v, env);
    if a.Some? {
      YieldsLeft(g, h, FindCase(g.decode, v, env), Aim(a.value, inherited, env), env);
    } else if b.Some? {
      YieldsRight(g, h, FindCase(h.decode, v, env), Aim(b.value, inherited, env), env);
    }
  }

  lemma JoinDefault(g: GenCode, h: GenCode, a: Option<Arm>, b: Option<Arm>, inherited: Option<Instr>, env: Env)
    requires Jumps(g, FindDefault(g.decode), a, inherited, env) && Jumps(h, FindDefault(h.decode), b, inherited, env)
    ensures Jumps(g.Plus(h), FindDefault(g.Plus(h).decode), if a.Some? then a else b, inherited, env)
  {
    FindDefaultConcat(g.decode, h.decode);
    if a.Some? {
      YieldsLeft(g, h, FindDefault(g.decode), Aim(a.value, inherited, env), env);
    } else if b.Some? {
      YieldsRight(g, h, FindDefault(h.decode), Aim(b.value, inherited, env), env);
    }
  }

  /** The waiting default clause has a default label in front and no case label. */
  lemma DefaultYields(i: Instr, v: int, env: Env)
    ensures FindCase(DefaultCode(i).decode, v, env) == |DefaultCode(i).decode| && FindDefault(DefaultCode(i).decode) == 0
    ensures Yields(DefaultCode(i), 0, Some(i), env)
  {
    var d := DefaultCode(i).decode;
    assert d == [DefaultLabel, Define(i), Break];
    assert d[1..] == [Define(i), Break] && d[1..][1..] == [Break] && d[1..][1..][1..] == [];
    assert FindCase(d[1..][1..], v, env) == 1;
    assert FindCase(d[1..], v, env) == 2;
    assert Exec(d, 1, env) == Returned(i);
  }

  /** Putting the braces around a block's statements, with the inherited default if none of them is one. */
  lemma Closes(field: string, g: GenCode, arm: Option<Arm>, fallback: Option<Arm>, inherited: Option<Instr>, env: Env)
    requires Close(field, g, Entered(inherited)).Ok?
    requires Jumps(g, FindCase(g.decode, env.fields(field), env), arm, inherited, env)
    requires Jumps(g, FindDefault(g.decode), fallback, inherited, env) && (g.hasDefault <==> fallback.Some?)
    ensures var h := Close(field, g, Entered(inherited)).value;
            var chosen := if arm.Some? then arm else fallback;
            && |h.decode| == 1 && h.decode[0].Switch?
            && Yields(h, 0, if chosen.Some? then Aim(chosen.value, inherited, env) else inherited, env)
  {
    var v := env.fields(field);
    if !g.hasDefault {
      var d := DefaultCode(inherited.value);
      DefaultYields(inherited.value, v, env);
      FindCaseConcat(g.decode, d.decode, v, env);
      FindDefaultConcat(g.decode, d.decode);
      if arm.Some? {
        YieldsLeft(g, d, FindCase(g.decode, v, env), Aim(arm.value, inherited, env), env);
      } else {
        YieldsRight(g, d, 0, inherited, env);
      }
    }
  }

  lemma {:induction false} StmtsDecode(ss: Stmts, formats: set<string>, format: Option<string>, inherited: Option<Instr>, v: int, env: Env)
    requires PureStmts(ss) && CompileStmts(ss, formats, format, Entered(inherited)).Ok?
    ensures var g := CompileStmts(ss, formats, format, Entered(inherited)).value;
            && Jumps(g, FindCase(g.decode, v, env), Matching(ss, format, v, env), inherited, env)
            && Jumps(g, FindDefault(g.decode), Fallback(ss, format), inherited, env)
            && (g.hasDefault <==> Fallback(ss, format).Some?)
    decreases ss, 1
  {
    StmtDecodes(ss.stmt, formats, format, inherited, v, env);
    if !ss.More? {
    } else {
      var g := CompileStmt(ss.stmt, formats, format, Entered(inherited)).value;
      var h := CompileStmts(ss.rest, formats, format, Entered(inherited)).value;
      StmtsDecode(ss.rest, formats, format, inherited, v, env);
      JoinCase(g, h, MatchingIn(ss.stmt, format, v, env), Matching(ss.rest, format, v, env), inherited, v, env);
      JoinDefault(g, h, FallbackIn(ss.stmt, format), Fallback(ss.rest, format), inherited, env);
    }
  }

  lemma {:induction false} StmtDecodes(s: Stmt, formats: set<string>, format: Option<string>, inherited: Option<Instr>, v: int, env: Env)
    requires PureStmt(s) && CompileStmt(s, formats, format, Entered(inherited)).Ok?
    ensures var g := CompileStmt(s, formats, format, Entered(inherited)).value;
            && Jumps(g, FindCase(g.decode, v, env), MatchingIn(s, format, v, env), inherited, env)
            && Jumps(g, FindDefault(g.decode), FallbackIn(s, format), inherited, env)
            && (g.hasDefault <==> FallbackIn(s, format).Some?)
    decreases s
  {
    match s
    case Format(id, ss) => StmtsDecode(ss, formats, Some(id), inherited, v, env);
    case Case(labels, ToInst(inst)) =>
      var i := CompileInst(inst, formats, format).value;
      CaseJumps(labels, DefineInst(i), [Break], Arm(s.target, format), inherited, v, env);
    case Case(labels, ToBlock(block)) =>
      BlockDecodes(block, formats, format, inherited, env);
      var g := CompileBlock(block, formats, format, Entered(inherited)).value;
      CaseJumps(labels, g, [], Arm(s.target, format), inherited, v, env);
  }

  /** The emitted switch returns the instruction the description means, and defines it, for every
      machine word; a block nested in a case cannot fall through to the next case. */
  lemma {:induction false} BlockDecodes(b: Block, formats: set<string>, format: Option<string>, outer: Option<Instr>, env: Env)
    requires PureBlock(b) && CompileBlock(b, formats, format, Entered(outer)).Ok?
    ensures var g := CompileBlock(b, formats, format, Entered(outer)).value;
            |g.decode| == 1 && g.decode[0].Switch? && Yields(g, 0, Meaning(b, format, outer, env), env)
    decreases b
  {
    var v := env.fields(b.field);
    var inherited := if b.byDefault.Some? then Resolved(b.byDefault.value, format) else outer;
    assert Inherit(b, formats, format, Entered(outer)) == Ok(Entered(inherited));
    StmtsDecode(b.stmts, formats, format, inherited, v, env);
    var g := CompileStmts(b.stmts, formats, format, Entered(inherited)).value;
    Closes(b.field, g, Matching(b.stmts, format, v, env), Fallback(b.stmts, format), inherited, env);
  }

  // ---------- when C++ accepts the switch ----------

  /** The constants of a block's own statements, format blocks flattened. */
  function AllConstants(ss: Stmts): seq<Const> {
    ConstantsIn(ss.stmt) + if ss.More? then AllConstants(ss.rest) else []
  }

  function ConstantsIn(s: Stmt): seq<Const> {
    match s
    case Format(_, ss) => AllConstants(ss)
    case Case(labels, _) => Constants(labels)
  }

  /** How many of a block's own statements mix `default` with constants. */
  function Mixed(ss: Stmts): nat {
    MixedIn(ss.stmt) + if ss.More? then Mixed(ss.rest) else 0
  }

  function MixedIn(s: Stmt): nat {
    match s
    case Format(_, ss) => Mixed(ss)
    case Case(labels, _) => if Pure(labels) then 0 else 1
  }

  /** In every block the constants differ and `default` is never mixed with constants. */
  ghost predicate WellLabelled(b: Block, env: Env) {
    DifferentValues(AllConstants(b.stmts), env) && Mixed(b.stmts) == 0 && InsideLabelled(b.stmts, env)
  }

  ghost predicate InsideLabelled(ss: Stmts, env: Env) {
    InsideLabelledIn(ss.stmt, env) && (ss.More? ==> InsideLabelled(ss.rest, env))
  }

  ghost predicate InsideLabelledIn(s: Stmt, env: Env) {
    match s
    case Format(_, ss) => InsideLabelled(ss, env)
    case Case(_, target) => target.ToBlock? ==> WellLabelled(target.block, env)
  }

  /** What a piece of switch body carries: these constants, this many default labels, and only
      acceptable nested switches if `inside`. */
  ghost predicate Carries(items: seq<Item>, constants: seq<Const>, defaults: nat, inside: bool, env: Env) {
    Cases(items) == constants && Defaults(items) == defaults && (LegalInside(items, env) <==> inside)
  }

  lemma CarriesConcat(a: seq<Item>, b: seq<Item>, ca: seq<Const>, cb: seq<Const>, da: nat, db: nat, ia: bool, ib: bool, env: Env)
    requires Carries(a, ca, da, ia, env) && Carries(b, cb, db, ib, env)
    ensures Carries(a + b, ca + cb, da + db, ia && ib, env)
  {
    CasesConcat(a, b);
    DefaultsConcat(a, b);
    InsideConcat(a, b, env);
  }

  lemma {:induction false} LabelsCarry(labels: Labels, env: Env)
    ensures Carries(LabelItems(labels), Constants(labels), if HasDefault(labels) then 1 else 0, true, env)
  {
    match labels
    case OnDefault =>
    case OnConst(c) => SingleCarries(CaseLabel(c), env);
    case Also(first, c) =>
      LabelsCarry(first, env);
      SingleCarries(CaseLabel(c), env);
      CarriesConcat(LabelItems(first), [CaseLabel(c)], Constants(first), [c], if HasDefault(first) then 1 else 0, 0, true, true, env);
  }

  lemma SingleCarries(item: Item, env: Env)
    ensures Carries([item], if item.CaseLabel? then [item.c] else [], if item.DefaultLabel? then 1 else 0,
                    item.Switch? ==> Legal(item.body, env), env)
  {
    assert [item][0] == item && [item][1..] == [];
  }

  lemma CaseCarries(labels: Labels, item: Item, post: seq<Item>, env: Env)
    requires !item.CaseLabel? && !item.DefaultLabel? && (post == [] || post == [Break])
    ensures Carries(LabelItems(labels) + [item] + post, Constants(labels), if HasDefault(labels) then 1 else 0,
                    item.Switch? ==> Legal(item.body, env), env)
  {
    var ok := item.Switch? ==> Legal(item.body, env);
    var d := if HasDefault(labels) then 1 else 0;
    LabelsCarry(labels, env);
    SingleCarries(item, env);
    SingleCarries(Break, env);
    CarriesConcat(LabelItems(labels), [item], Constants(labels), [], d, 0, true, ok, env);
    assert Constants(labels) + [] == Constants(labels);
    CarriesConcat(LabelItems(labels) + [item], post, Constants(labels), [], d, 0, ok, true, env);
  }

  lemma {:induction false} StmtsCarry(ss: Stmts, formats: set<string>, format: Option<string>, inherited: Option<Instr>, env: Env)
    requires CompileStmts(ss, formats, format, Entered(inherited)).Ok?
    ensures var g := CompileStmts(ss, formats, format, Entered(inherited)).value;
            Carries(g.decode, AllConstants(ss), Mixed(ss) + if g.hasDefault then 1 else 0, InsideLabelled(ss, env), env)
    decreases ss, 1
  {
    StmtCarries(ss.stmt, formats, format, inherited, env);
    if ss.More? {
      StmtsCarry(ss.rest, formats, format, inherited, env);
      var g := CompileStmt(ss.stmt, formats, format, Entered(inherited)).value;
      var h := CompileStmts(ss.rest, formats, format, Entered(inherited)).value;
      CarriesConcat(g.decode, h.decode, ConstantsIn(ss.stmt), AllConstants(ss.rest),
                    MixedIn(ss.stmt) + if g.hasDefault then 1 else 0, Mixed(ss.rest) + if h.hasDefault then 1 else 0,
                    InsideLabelledIn(ss.stmt, env), InsideLabelled(ss.rest, env), env);
    } else {
      assert AllConstants(ss) == ConstantsIn(ss.stmt);
    }
  }

  lemma {:induction false} StmtCarries(s: Stmt, formats: set<string>, format: Option<string>, inherited: Option<Instr>, env: Env)
    requires CompileStmt(s, formats, format, Entered(inherited)).Ok?
    ensures var g := CompileStmt(s, formats, format, Entered(inherited)).value;
            Carries(g.decode, ConstantsIn(s), MixedIn(s) + if g.hasDefault then 1 else 0, InsideLabelledIn(s, env), env)
    decreases s
  {
    match s
    case Format(id, ss) => StmtsCarry(ss, formats, Some(id), inherited, env);
    case Case(labels, ToInst(inst)) =>
      CaseCarries(labels, Define(CompileInst(inst, formats, format).value), [Break], env);
    case Case(labels, ToBlock(block)) =>
      LegalExactly(block, formats, format, inherited, env);
      CaseCarries(labels, CompileBlock(block, formats, format, Entered(inherited)).value.decode[0], [], env);
  }

  /** The emitted switch, nested ones included, is legal C++ exactly when every block is well labelled:
      in particular each switch then has exactly one default. */
  lemma {:induction false} LegalExactly(b: Block, formats: set<string>, format: Option<string>, outer: Option<Instr>, env: Env)
    requires CompileBlock(b, formats, format, Entered(outer)).Ok?
    ensures var code := CompileBlock(b, formats, format, Entered(outer)).value.decode;
            && |code| == 1 && code[0].Switch? && Defaults(code[0].body) == 1 + Mixed(b.stmts)
            && (Legal(code[0].body, env) <==> WellLabelled(b, env))
    decreases b
  {
    var inherited := if b.byDefault.Some? then Resolved(b.byDefault.value, format) else outer;
    assert Inherit(b, formats, format, Entered(outer)) == Ok(Entered(inherited));
    StmtsCarry(b.stmts, formats, format, inherited, env);
    var g := CompileStmts(b.stmts, formats, format, Entered(inherited)).value;
    if !g.hasDefault {
      var d := DefaultCode(inherited.value).decode;
      CaseCarries(OnDefault, Define(inherited.value), [Break], env);
      CarriesConcat(g.decode, d, AllConstants(b.stmts), [], Mixed(b.stmts), 1, InsideLabelled(b.stmts, env), true, env);
      assert AllConstants(b.stmts) + [] == AllConstants(b.stmts);
    }
  }

  lemma {:induction false} LabelledIsPure(ss: Stmts, env: Env)
    requires Mixed(ss) == 0 && InsideLabelled(ss, env)
    ensures PureStmts(ss)
    decreases ss, 1
  {
    LabelledIsPureIn(ss.stmt, env);
    if !ss.More? {
    } else {
      LabelledIsPure(ss.rest, env);
    }
  }

  lemma {:induction false} LabelledIsPureIn(s: Stmt, env: Env)
    requires MixedIn(s) == 0 && InsideLabelledIn(s, env)
    ensures PureStmt(s)
    decreases s
  {
    match s
    case Format(_, ss) => LabelledIsPure(ss, env);
    case Case(_, ToInst(_)) =>
    case Case(_, ToBlock(block)) =>
      assert WellLabelled(block, env);
      LabelledIsPure(block.stmts, env);
  }

  /** Every acceptable, well labelled description decodes every machine word to the instruction it
      means, which is also defined. */
  lemma Decodes(b: Block, formats: set<string>, env: Env)
    requires Acceptable(b, formats, None, false) && WellLabelled(b, env)
    ensures CompileBlock(b, formats, None, None).Ok?
    ensures var g := CompileBlock(b, formats, None, None).value;
            && Meaning(b, None, None, env).Some?
            && Exec(g.decode, 0, env) == Returned(Meaning(b, None, None, env).value)
            && Meaning(b, None, None, env).value in g.defined
  {
    Accepted(b, formats, None, None);
    LabelledIsPure(b.stmts, env);
    BlockDecodes(b, formats, None, None, env);
  }

  // ---------- the parser ----------

  class Parser {
    /** The names of the formats defined so far. */
    const formats: set<string>
    var formatStack: seq<Option<string>>
    var defaultStack: seq<Option<GenCode>>

    /** Outside every format block there is no format, outside every decode block no default. */
    constructor (formats: set<string>)
      ensures this.formats == formats && formatStack == [None] && defaultStack == [None]
    {
      this.formats := formats;
      formatStack, defaultStack := [None], [None];
    }

    ghost predicate Ready()
      reads this
    {
      formatStack != [] && defaultStack != []
    }

    ghost function TopFormat(): Option<string>
      requires Ready()
      reads this
    {
      formatStack[|formatStack| - 1]
    }

    ghost function TopDefault(): Option<GenCode>
      requires Ready()
      reads this
    {
      defaultStack[|defaultStack| - 1]
    }

    method DefineInstruction(inst: Inst) returns (r: Result<GenCode>)
      requires Ready()
      ensures var i := CompileInst(inst, formats, TopFormat());
              r == if i.Ok? then Ok(DefineInst(i.value)) else Err(i.error)
    {
      match inst
      case Implicit(name, args) =>
        var current := formatStack[|formatStack| - 1];
        if current.None? {
          return Err(NoActiveFormat);
        }
        r := Ok(DefineInst(Instr(current.value, name, args)));
      case Explicit(format, name, args) =>
        if format !in formats {
          return Err(UnknownFormat);
        }
        r := Ok(DefineInst(Instr(format, name, args)));
    }

    /** Pushes the default that holds inside the block about to begin. */
    method PushDefault(b: Block) returns (r: Result<()>)
      requires Ready()
      modifies `defaultStack
      ensures var d := Inherit(b, formats, old(TopFormat()), old(TopDefault()));
              && (r.Ok? <==> d.Ok?) && (r.Err? ==> r.error == d.error)
              && (r.Ok? ==> defaultStack == old(defaultStack) + [d.value])
    {
      if b.byDefault.None? {
        defaultStack := defaultStack + [defaultStack[|defaultStack| - 1]];
      } else {
        var inst := DefineInstruction(b.byDefault.value);
        if inst.Err? {
          return Err(inst.error);
        }
        defaultStack := defaultStack + [Some(inst.value.Wrap([DefaultLabel], [Break]))];
      }
      r := Ok(());
    }

    /** A decode block: its default is on the stack while its statements are parsed, and off again
        afterwards. */
    method ParseBlock(b: Block) returns (r: Result<GenCode>)
      requires Ready()
      modifies this
      ensures r == CompileBlock(b, formats, old(TopFormat()), old(TopDefault()))
      ensures r.Ok? ==> formatStack == old(formatStack) && defaultStack == old(defaultStack)
      decreases b
    {
      var pushed := PushDefault(b);
      if pushed.Err? {
        return Err(pushed.error);
      }
      var stmts := ParseStmts(b.stmts);
      if stmts.Err? {
        return stmts;
      }
      var byDefault := defaultStack[|defaultStack| - 1];
      defaultStack := defaultStack[..|defaultStack| - 1];
      var code := stmts.value;
      if !code.hasDefault {
        if byDefault.None? {
          return Err(MissingDefault);
        }
        code := code.Plus(byDefault.value);
      }
      r := Ok(code.(decode := [Switch(b.field, code.decode)]));
    }

    method ParseStmts(ss: Stmts) returns (r: Result<GenCode>)
      requires Ready()
      modifies this
      ensures r == CompileStmts(ss, formats, old(TopFormat()), old(TopDefault()))
      ensures r.Ok? ==> formatStack == old(formatStack) && defaultStack == old(defaultStack)
      decreases ss, 1
    {
      r := ParseStmt(ss.stmt);
      if r.Ok? && ss.More? {
        var rest := ParseStmts(ss.rest);
        if rest.Err? {
          return rest;
        }
        if r.value.hasDefault && rest.value.hasDefault {
          return Err(TwoDefaults);
        }
        r := Ok(r.value.Plus(rest.value));
      }
    }

    /** A statement: a format is on the stack while its block is parsed, and off again afterwards. */
    method ParseStmt(s: Stmt) returns (r: Result<GenCode>)
      requires Ready()
      modifies this
      ensures r == CompileStmt(s, formats, old(TopFormat()), old(TopDefault()))
      ensures r.Ok? ==> formatStack == old(formatStack) && defaultStack == old(defaultStack)
      decreases s
    {
      match s
      case Format(id, ss) =>
        if id !in formats {
          return Err(UnknownFormat);
        }
        formatStack := formatStack + [Some(id)];
        r := ParseStmts(ss);
        if r.Ok? {
          formatStack := formatStack[..|formatStack| - 1];
        }
      case Case(labels, ToInst(inst)) =>
        r := DefineInstruction(inst);
        if r.Ok? {
          r := Ok(r.value.Wrap(LabelItems(labels), [Break]).(hasDefault := labels == OnDefault));
        }
      case Case(labels, ToBlock(block)) =>
        r := ParseBlock(block);
        if r.Ok? {
          r := Ok(r.value.Wrap(LabelItems(labels), []).(hasDefault := labels == OnDefault));
        }
    }
  }

  /** Parsing a whole description. */
  method ParseTop(b: Block, formats: set<string>) returns (r: Result<GenCode>)
    ensures r.Ok? <==> Acceptable(b, formats, None, false)
    ensures forall env :: r.Ok? && WellLabelled(b, env) ==>
              && Meaning(b, None, None, env).Some?
              && Exec(r.value.decode, 0, env) == Returned(Meaning(b, None, None, env).value)
              && Meaning(b, None, None, env).value in r.value.defined
  {
    var parser := new Parser(formats);
    r := parser.ParseBlock(b);
    Accepted(b, formats, None, None);
    forall env | r.Ok? && WellLabelled(b, env)
      ensures && Meaning(b, None, None, env).Some?
              && Exec(r.value.decode, 0, env) == Returned(Meaning(b, None, None, env).value)
              && Meaning(b, None, None, env).value in r.value.defined
    {
      Decodes(b, formats, env);
    }
  }
}
