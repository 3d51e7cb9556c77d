/** The emitted decoder: nested C++ switch statements, and what running them does. */
module SwitchCode {

  /** A case constant: an integer literal, or a C++ expression that is a constant. */
  datatype Const = Lit(n: nat) | Named(text: string)

  /** An instruction: a mnemonic with its arguments, in a format. */
  datatype Instr = Instr(format: string, name: string, args: seq<string>)

  /** `Define` stands for the code an instruction format generates, which returns the instruction. */
  datatype Item =
    | CaseLabel(c: Const)
    | DefaultLabel
    | Define(instr: Instr)
    | Break
    | Switch(field: string, body: seq<Item>)

  /** The machine word being decoded, and the values of the named constants. */
  datatype Env = Env(fields: string -> int, names: string -> int) {
    function Value(c: Const): int {
      match c
      case Lit(n) => n
      case Named(text) => names(text)
    }
  }

  datatype Outcome = Returned(instr: Instr) | Left

  /** Where a switch jumps to: the first label with this value. */
  function FindCase(items: seq<Item>, v: int, env: Env): (i: nat)
    ensures i <= |items|
  {
    if items == [] then 0
    else if items[0].CaseLabel? && env.Value(items[0].c) == v then 0
    else 1 + FindCase(items[1..], v, env)
  }

  function FindDefault(items: seq<Item>): (i: nat)
    ensures i <= |items|
  {
    if items == [] || items[0].DefaultLabel? then 0 else 1 + FindDefault(items[1..])
  }

  function Entry(items: seq<Item>, v: int, env: Env): (i: nat)
    ensures i <= |items|
  {
    var i := FindCase(items, v, env);
    if i < |items| then i else FindDefault(items)
  }

  /** Run a switch body from item `i` on, falling through labels, until something returns, a break
      or the end. */
  function Exec(items: seq<Item>, i: nat, env: Env): Outcome
    requires i <= |items|
    decreases items, |items| - i
  {
    if i == |items| then Left
    else
      match items[i]
      case CaseLabel(_) => Exec(items, i + 1, env)
      case DefaultLabel => Exec(items, i + 1, env)
      case Define(instr) => Returned(instr)
      case Break => Left
      case Switch(field, body) =>
        var inner := Exec(body, Entry(body, env.fields(field), env), env);
        if inner.Returned? then inner else Exec(items, i + 1, env)
  }

  lemma {:induction false} FindCaseConcat(a: seq<Item>, b: seq<Item>, v: int, env: Env)
    ensures FindCase(a + b, v, env) == if FindCase(a, v, env) < |a| then FindCase(a, v, env) else |a| + FindCase(b, v, env)
  {
    if a == [] {
      assert a + b == b;
    } else {
      assert (a + b)[1..] == a[1..] + b;
      FindCaseConcat(a[1..], b, v, env);
    }
  }

  lemma {:induction false} FindDefaultConcat(a: seq<Item>, b: seq<Item>)
    ensures FindDefault(a + b) == if FindDefault(a) < |a| then FindDefault(a) else |a| + FindDefault(b)
  {
    if a == [] {
      assert a + b == b;
    } else {
      assert (a + b)[1..] == a[1..] + b;
      FindDefaultConcat(a[1..], b);
    }
  }

  lemma {:induction false} ExecLeft(a: seq<Item>, b: seq<Item>, i: nat, env: Env)
    requires i <= |a| && Exec(a, i, env).Returned?
    ensures Exec(a + b, i, env) == Exec(a, i, env)
    decreases |a| - i
  {
    if i == |a| {
    } else {
      assert (a + b)[i] == a[i];
      if !a[i].Define? && (a[i].Switch? ==> Exec(a, i, env) == Exec(a, i + 1, env)) {
        ExecLeft(a, b, i + 1, env);
      }
    }
  }

  lemma {:induction false} ExecRight(a: seq<Item>, b: seq<Item>, i: nat, env: Env)
    requires i <= |b|
    ensures Exec(a + b, |a| + i, env) == Exec(b, i, env)
    decreases |b| - i
  {
    if i == |b| {
    } else {
      assert (a + b)[|a| + i] == b[i];
      ExecRight(a, b, i + 1, env);
    }
  }

  /** The constants of a switch, in order. */
  function Cases(items: seq<Item>): seq<Const> {
    if items == [] then []
    else (if items[0].CaseLabel? then [items[0].c] else []) + Cases(items[1..])
  }

  function Defaults(items: seq<Item>): nat {
    if items == [] then 0 else (if items[0].DefaultLabel? then 1 else 0) + Defaults(items[1..])
  }

  ghost predicate DifferentValues(cs: seq<Const>, env: Env) {
    forall i, j :: 0 <= i < j < |cs| ==> env.Value(cs[i]) != env.Value(cs[j])
  }

  /** C++ accepts a switch only if its constants differ and it has at most one default label. */
  ghost predicate Legal(items: seq<Item>, env: Env)
    decreases items, 1
  {
    && DifferentValues(Cases(items), env) && Defaults(items) <= 1
    && LegalInside(items, env)
  }

  ghost predicate LegalInside(items: seq<Item>, env: Env)
    decreases items, 0
  {
    forall i :: 0 <= i < |items| && items[i].Switch? ==> Legal(items[i].body, env)
  }

  lemma {:induction false} CasesConcat(a: seq<Item>, b: seq<Item>)
    ensures Cases(a + b) == Cases(a) + Cases(b)
  {
    if a == [] {
      assert a + b == b;
    } else {
      assert (a + b)[1..] == a[1..] + b && (a + b)[0] == a[0];
      CasesConcat(a[1..], b);
      var first := if a[0].CaseLabel? then [a[0].c] else [];
      assert first + (Cases(a[1..]) + Cases(b)) == (first + Cases(a[1..])) + Cases(b);
    }
  }

  lemma {:induction false} DefaultsConcat(a: seq<Item>, b: seq<Item>)
    ensures Defaults(a + b) == Defaults(a) + Defaults(b)
  {
    if a == [] {
      assert a + b == b;
    } else {
      assert (a + b)[1..] == a[1..] + b;
      DefaultsConcat(a[1..], b);
    }
  }

  lemma InsideConcat(a: seq<Item>, b: seq<Item>, env: Env)
    ensures LegalInside(a + b, env) <==> LegalInside(a, env) && LegalInside(b, env)
  {
    var ab := a + b;
    assert forall i :: 0 <= i < |a| ==> a[i] == ab[i];
    assert forall i :: 0 <= i < |b| ==> b[i] == ab[|a| + i];
  }
}
