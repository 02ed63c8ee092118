/**
 The small expression language that decides which small model is sent, its interpreter
 (graphiti/verify-small-model-default.py), and the expression graphiti/Dockerfile ships.
 */
module SmallModel {
  import opened Text
  import opened ExpressionScan

  datatype CompareOp = In | NotIn | Eq

  datatype Expr =
    | Lit(s: string)
    | NoneValue
    | Tuple(items: seq<Expr>)
    | PathOf(url: Expr)
    | Or(operands: seq<Expr>)
    | IfElse(body: Expr, test: Expr, orelse: Expr)
    | Compare(left: Expr, op: CompareOp, right: Expr)
    | EnvGet(key: Expr)
    | UrlSplit(arg: Expr)
    | RStrip(receiver: Expr, arg: Expr)
    | EndsWith(receiver: Expr, arg: Expr)

  /** A split URL is seen only through its path. */
  datatype Value = VNone | VText(s: string) | VBool(b: bool) | VTuple(items: seq<Value>) | VUrl(path: string)

  datatype Result<+T> = Ok(value: T) | Raises

  type Env = map<string, string>

  function EnvValue(env: Env, key: string): Value {
    if key in env then VText(env[key]) else VNone
  }

  predicate Truthy(v: Value) {
    match v
    case VNone => false
    case VText(s) => s != ""
    case VBool(b) => b
    case VTuple(items) => items != []
    case VUrl(_) => true
  }

  /** `left in right`: substring, membership, or a type error. */
  function Contains(left: Value, right: Value): Result<bool> {
    match right
    case VText(s) => if left.VText? then Ok(IndexOf(s, left.s, 0) != -1) else Raises
    case VTuple(items) => Ok(left in items)
    case _ => Raises
  }

  function RightStrip(s: string, chars: string): (r: string)
    ensures r <= s && (r == "" || r[|r| - 1] !in chars)
    ensures forall i | |r| <= i < |s| :: s[i] in chars
  {
    if s != "" && s[|s| - 1] in chars then RightStrip(s[..|s| - 1], chars) else s
  }

  function Suffix(s: string, t: string): bool {
    |t| <= |s| && s[|s| - |t|..] == t
  }

  /**
   The interpreter.  `split` is the path of a URL, or none where splitting it raises.  Only the
   branch that is taken is evaluated, and `or` stops at its first truthy operand.
   */
  function Evaluate(e: Expr, env: Env, split: string -> Option<string>): Result<Value>
    decreases e, 0
  {
    match e
    case Lit(s) => Ok(VText(s))
    case NoneValue => Ok(VNone)
    case Tuple(items) =>
      var vs := EvaluateAll(items, env, split);
      if vs.Raises? then Raises else Ok(VTuple(vs.value))
    case PathOf(url) =>
      var v := Evaluate(url, env, split);
      if v.Ok? && v.value.VUrl? then Ok(VText(v.value.path)) else Raises
    case Or(operands) => EvaluateOr(operands, env, split, VNone)
    case IfElse(body, test, orelse) =>
      var t := Evaluate(test, env, split);
      if t.Raises? then Raises
      else if Truthy(t.value) then Evaluate(body, env, split)
      else Evaluate(orelse, env, split)
    case Compare(left, op, right) =>
      var l := Evaluate(left, env, split);
      var r := Evaluate(right, env, split);
      if l.Raises? || r.Raises? then Raises else CompareValues(l.value, op, r.value)
    case EnvGet(key) =>
      var k := Evaluate(key, env, split);
      if k.Raises? then Raises else Ok(if k.value.VText? then EnvValue(env, k.value.s) else VNone)
    case UrlSplit(arg) =>
      var a := Evaluate(arg, env, split);
      if a.Raises? || !a.value.VText? || split(a.value.s).None? then Raises else Ok(VUrl(split(a.value.s).value))
    case RStrip(receiver, arg) =>
      var r := Evaluate(receiver, env, split);
      var a := Evaluate(arg, env, split);
      if r.Ok? && a.Ok? && r.value.VText? && a.value.VText? then Ok(VText(RightStrip(r.value.s, a.value.s))) else Raises
    case EndsWith(receiver, arg) =>
      var r := Evaluate(receiver, env, split);
      var a := Evaluate(arg, env, split);
      if r.Ok? && a.Ok? && r.value.VText? && a.value.VText? then Ok(VBool(Suffix(r.value.s, a.value.s))) else Raises
  }

  function CompareValues(l: Value, op: CompareOp, r: Value): Result<Value> {
    match op
    case Eq => Ok(VBool(l == r))
    case In => var c := Contains(l, r); if c.Raises? then Raises else Ok(VBool(c.value))
    case NotIn => var c := Contains(l, r); if c.Raises? then Raises else Ok(VBool(!c.value))
  }

  lemma OccursIff(s: string, t: string)
    ensures IndexOf(s, t, 0) != -1 <==> exists a, b :: s == a + t + b
  {
    var i := IndexOf(s, t, 0);
    if i != -1 {
      assert s == s[..i] + t + s[i + |t|..];
    }
    if a, b :| s == a + t + b {
      assert MatchesAt(s, t, |a|);
    }
  }

  /** What the comparisons say: equality, occurrence in a text, membership of a tuple, and nothing of other values. */
  lemma ComparisonSays(l: Value, r: Value)
    ensures CompareValues(l, Eq, r) == Ok(VBool(l == r))
    ensures l.VText? && r.VText? ==>
              var occurs := exists a, b :: r.s == a + l.s + b;
              CompareValues(l, In, r) == Ok(VBool(occurs)) && CompareValues(l, NotIn, r) == Ok(VBool(!occurs))
    ensures r.VTuple? ==>
              && CompareValues(l, In, r) == Ok(VBool(exists i | 0 <= i < |r.items| :: r.items[i] == l))
              && CompareValues(l, NotIn, r) == Ok(VBool(forall i | 0 <= i < |r.items| :: r.items[i] != l))
    ensures !r.VTuple? && !(l.VText? && r.VText?) ==>
              CompareValues(l, In, r) == CompareValues(l, NotIn, r) == Raises
  {
    if l.VText? && r.VText? {
      OccursIff(r.s, l.s);
    }
  }

  lemma SuffixIff(s: string, t: string)
    ensures Suffix(s, t) <==> exists a :: s == a + t
  {
    if Suffix(s, t) {
      assert s == s[..|s| - |t|] + t;
    }
  }

  function EvaluateAll(es: seq<Expr>, env: Env, split: string -> Option<string>): Result<seq<Value>>
    decreases es, 1
  {
    if es == [] then Ok([])
    else
      var v := Evaluate(es[0], env, split);
      var vs := EvaluateAll(es[1..], env, split);
      if v.Raises? || vs.Raises? then Raises else Ok([v.value] + vs.value)
  }

  /** The first truthy operand, or else the last one; `last` is the value carried so far. */
  function EvaluateOr(es: seq<Expr>, env: Env, split: string -> Option<string>, last: Value): Result<Value>
    decreases es, 1
  {
    if es == [] then Ok(last)
    else
      var v := Evaluate(es[0], env, split);
      if v.Raises? || Truthy(v.value) then v else EvaluateOr(es[1..], env, split, v.value)
  }

  /** The loop behind `or`: evaluate operand after operand and stop at the first truthy value. */
  method OrLoop(operands: seq<Expr>, env: Env, split: string -> Option<string>) returns (value: Result<Value>)
    ensures value == Evaluate(Or(operands), env, split)
  {
    value := Ok(VNone);
    for i := 0 to |operands|
      invariant value.Ok?
      invariant EvaluateOr(operands, env, split, VNone) == EvaluateOr(operands[i..], env, split, value.value)
    {
      assert operands[i..][1..] == operands[i + 1..];
      value := Evaluate(operands[i], env, split);
      if value.Raises? || Truthy(value.value) {
        return;
      }
    }
  }

  /** `or` is the first operand that is truthy or raises, or else its last one; what stands behind does not matter. */
  lemma {:induction false} OrPicks(operands: seq<Expr>, i: nat, env: Env, split: string -> Option<string>, last: Value)
    requires i < |operands|
    requires forall j | 0 <= j < i :: var v := Evaluate(operands[j], env, split); v.Ok? && !Truthy(v.value)
    requires var v := Evaluate(operands[i], env, split); i == |operands| - 1 || v.Raises? || Truthy(v.value)
    ensures EvaluateOr(operands, env, split, last) == Evaluate(operands[i], env, split)
    decreases i
  {
    if i == 0 {
    } else {
      assert operands[1..][i - 1] == operands[i];
      OrPicks(operands[1..], i - 1, env, split, Evaluate(operands[0], env, split).value);
    }
  }

  // ----- the shipped expression

  const SMALL_MODEL := "GRAPHITI_SMALL_MODEL"
  const BASE_URL := "OPENAI_BASE_URL"
  const SENTINEL := "aios-small"
  const REAL_DEFAULT := "gpt-4.1-nano"
  const PROXY_PATH := "/api/internal/llm/v1"

  const SMALL := EnvGet(Lit(SMALL_MODEL))
  const ON_PROXY :=
    Compare(RStrip(PathOf(UrlSplit(Or([EnvGet(Lit(BASE_URL)), Lit("")]))), Lit("/")), Eq, Lit(PROXY_PATH))
  const FALLBACK := IfElse(Lit(SENTINEL), ON_PROXY, Lit(REAL_DEFAULT))
  const SHIPPED :=
    IfElse(SMALL, Compare(SMALL, NotIn, Tuple([NoneValue, Lit(""), Lit(SENTINEL)])), FALLBACK)

  /** An explicit small model that is neither empty nor the sentinel. */
  predicate RealModelGiven(env: Env) {
    SMALL_MODEL in env && env[SMALL_MODEL] != "" && env[SMALL_MODEL] != SENTINEL
  }

  function BaseUrl(env: Env): string {
    if BASE_URL in env then env[BASE_URL] else ""
  }

  /** The base URL's path, trailing slashes aside, is the canonical proxy route. */
  predicate BehindProxy(env: Env, split: string -> Option<string>) {
    split(BaseUrl(env)).Some? && RightStrip(split(BaseUrl(env)).value, "/") == PROXY_PATH
  }

  lemma EvaluateSmall(env: Env, split: string -> Option<string>)
    ensures Evaluate(SMALL, env, split) == Ok(EnvValue(env, SMALL_MODEL))
  {
    assert Evaluate(Lit(SMALL_MODEL), env, split) == Ok(VText(SMALL_MODEL));
  }

  lemma EvaluateTest(env: Env, split: string -> Option<string>)
    ensures Evaluate(Compare(SMALL, NotIn, Tuple([NoneValue, Lit(""), Lit(SENTINEL)])), env, split) ==
            Ok(VBool(RealModelGiven(env)))
  {
    EvaluateSmall(env, split);
    var es := [NoneValue, Lit(""), Lit(SENTINEL)];
    EvaluateCons(Lit(SENTINEL), [], env, split);
    EvaluateCons(Lit(""), [Lit(SENTINEL)], env, split);
    EvaluateCons(NoneValue, [Lit(""), Lit(SENTINEL)], env, split);
    assert [Lit(SENTINEL)] + [] == [Lit(SENTINEL)] && [Lit("")] + [Lit(SENTINEL)] == [Lit(""), Lit(SENTINEL)];
    assert [NoneValue] + [Lit(""), Lit(SENTINEL)] == es;
    assert [VNone] + ([VText("")] + ([VText(SENTINEL)] + [])) == [VNone, VText(""), VText(SENTINEL)];
    assert Evaluate(Tuple(es), env, split) == Ok(VTuple([VNone, VText(""), VText(SENTINEL)]));
  }

  lemma EvaluateCons(e: Expr, rest: seq<Expr>, env: Env, split: string -> Option<string>)
    requires Evaluate(e, env, split).Ok? && EvaluateAll(rest, env, split).Ok?
    ensures EvaluateAll([e] + rest, env, split) ==
            Ok([Evaluate(e, env, split).value] + EvaluateAll(rest, env, split).value)
  {
    assert ([e] + rest)[1..] == rest;
  }

  lemma EvaluateBase(env: Env, split: string -> Option<string>)
    ensures Evaluate(Or([EnvGet(Lit(BASE_URL)), Lit("")]), env, split) == Ok(VText(BaseUrl(env)))
  {
    var es := [EnvGet(Lit(BASE_URL)), Lit("")];
    assert es[1..] == [Lit("")] && es[1..][1..] == [];
    assert Evaluate(Lit(BASE_URL), env, split) == Ok(VText(BASE_URL));
    assert Evaluate(es[0], env, split) == Ok(EnvValue(env, BASE_URL));
    assert EvaluateOr([], env, split, VText("")) == Ok(VText(""));
    assert EvaluateOr([Lit("")], env, split, EnvValue(env, BASE_URL)) == Ok(VText(""));
  }

  lemma EvaluateProxyTest(env: Env, split: string -> Option<string>)
    ensures Evaluate(ON_PROXY, env, split) ==
            if split(BaseUrl(env)).None? then Raises else Ok(VBool(BehindProxy(env, split)))
  {
    var base := Or([EnvGet(Lit(BASE_URL)), Lit("")]);
    EvaluateBase(env, split);
    var url := split(BaseUrl(env));
    assert Evaluate(UrlSplit(base), env, split) == if url.None? then Raises else Ok(VUrl(url.value));
    assert Evaluate(PathOf(UrlSplit(base)), env, split) == if url.None? then Raises else Ok(VText(url.value));
    assert Evaluate(Lit("/"), env, split) == Ok(VText("/"));
    assert Evaluate(Lit(PROXY_PATH), env, split) == Ok(VText(PROXY_PATH));
  }

  /**
   The shipped expression makes the documented three-way decision in every environment, not only in
   the listed cases; it raises exactly when no real model is given and the base URL cannot be split.
   */
  lemma ShippedDecides(env: Env, split: string -> Option<string>)
    ensures Evaluate(SHIPPED, env, split) ==
            if RealModelGiven(env) then Ok(VText(env[SMALL_MODEL]))
            else if split(BaseUrl(env)).None? then Raises
            else if BehindProxy(env, split) then Ok(VText(SENTINEL))
            else Ok(VText(REAL_DEFAULT))
  {
    EvaluateTest(env, split);
    EvaluateSmall(env, split);
    EvaluateProxyTest(env, split);
    assert Evaluate(FALLBACK, env, split) ==
           if split(BaseUrl(env)).None? then Raises
           else if BehindProxy(env, split) then Evaluate(Lit(SENTINEL), env, split)
           else Evaluate(Lit(REAL_DEFAULT), env, split);
  }

  /** The sentinel is sent only behind the proxy, however it was asked for; it never reaches a provider. */
  lemma SentinelOnlyBehindProxy(env: Env, split: string -> Option<string>)
    ensures Evaluate(SHIPPED, env, split) == Ok(VText(SENTINEL)) <==> !RealModelGiven(env) && BehindProxy(env, split)
  {
    ShippedDecides(env, split);
    assert REAL_DEFAULT[0] == 'g' && SENTINEL[0] == 'a';
  }

  // ----- printed expressions are whole arguments

  function Print(e: Expr): string {
    match e
    case Lit(s) => "'" + s + "'"
    case NoneValue => "None"
    case Tuple(items) => Wrap("", PrintEach(items, ", "))
    case PathOf(url) => Print(url) + ".path"
    case Or(operands) => Wrap("", PrintEach(operands, " or "))
    case IfElse(body, test, orelse) => Wrap("", Print(body) + " if " + Print(test) + " else " + Print(orelse))
    case Compare(left, op, right) =>
      Wrap("", Print(left) + Sign(op) + Print(right))
    case EnvGet(key) => Wrap("os.environ.get", Print(key))
    case UrlSplit(arg) => Wrap("urlsplit", Print(arg))
    case RStrip(receiver, arg) => Print(receiver) + Wrap(".rstrip", Print(arg))
    case EndsWith(receiver, arg) => Print(receiver) + Wrap(".endswith", Print(arg))
  }

  function Wrap(name: string, inside: string): string {
    name + "(" + inside + ")"
  }

  function PrintEach(es: seq<Expr>, separator: string): string {
    if es == [] then ""
    else if |es| == 1 && separator != ", " then Print(es[0])
    else Print(es[0]) + separator + PrintEach(es[1..], separator)
  }

  /** No character the scan looks at. */
  predicate Plain(s: string) {
    forall c | c in s :: !IsOpen(c) && !IsClose(c) && c != ','
  }

  /** Every string constant is plain: the scan does not know about quotes. */
  predicate PlainConstants(e: Expr) {
    match e
    case Lit(s) => Plain(s)
    case NoneValue => true
    case Tuple(items) => forall x | x in items :: PlainConstants(x)
    case PathOf(url) => PlainConstants(url)
    case Or(operands) => forall x | x in operands :: PlainConstants(x)
    case IfElse(body, test, orelse) => PlainConstants(body) && PlainConstants(test) && PlainConstants(orelse)
    case Compare(left, op, right) => PlainConstants(left) && PlainConstants(right)
    case EnvGet(key) => PlainConstants(key)
    case UrlSplit(arg) => PlainConstants(arg)
    case RStrip(receiver, arg) => PlainConstants(receiver) && PlainConstants(arg)
    case EndsWith(receiver, arg) => PlainConstants(receiver) && PlainConstants(arg)
  }

  /** The scan passes `s` at depth `d` and is back at that depth. */
  predicate Neutral(s: string, d: nat) {
    Run(s, d) == Some(d)
  }

  lemma {:induction false} PlainIsNeutral(s: string, d: nat)
    requires Plain(s)
    ensures Neutral(s, d)
  {
    if s == "" {
    } else {
      assert s[0] in s && forall c | c in s[1..] :: c in s;
      PlainIsNeutral(s[1..], d);
    }
  }

  lemma NeutralAppend(a: string, b: string, d: nat)
    requires Neutral(a, d) && Neutral(b, d)
    ensures Neutral(a + b, d)
  {
    RunCompose(a, b, d);
  }

  lemma WrapIsNeutral(name: string, inside: string)
    requires Plain(name) && Neutral(inside, 1)
    ensures Neutral(Wrap(name, inside), 0)
  {
    PlainIsNeutral(name, 0);
    RunCompose(name, "(" + inside + ")", 0);
    assert name + ("(" + inside + ")") == Wrap(name, inside);
    var t := "(" + inside + ")";
    assert t[0] == '(' && t[1..] == inside + ")";
    RunCompose(inside, ")", 1);
    assert ")"[1..] == "";
    assert Run(")", 1) == Run("", 0);
  }

  lemma {:induction false} PrintIsNeutral(e: Expr)
    requires PlainConstants(e)
    ensures Neutral(Print(e), 0)
    decreases e, 1
  {
    NamesArePlain();
    SyntaxIsPlain();
    match e
    case Lit(s) => PlainIsNeutral(Print(e), 0);
    case NoneValue => PlainIsNeutral("None", 0);
    case Tuple(items) =>
      PrintEachIsNeutral(items, ", ");
      WrapIsNeutral("", PrintEach(items, ", "));
    case PathOf(url) =>
      PrintIsNeutral(url);
      PlainIsNeutral(".path", 0);
      NeutralAppend(Print(url), ".path", 0);
    case Or(operands) =>
      PrintEachIsNeutral(operands, " or ");
      WrapIsNeutral("", PrintEach(operands, " or "));
    case IfElse(body, test, orelse) =>
      PrintsInside(body);
      PrintsInside(test);
      PrintsInside(orelse);
      JoinInside(Print(body), " if ", Print(test));
      JoinInside(Print(body) + " if " + Print(test), " else ", Print(orelse));
      WrapIsNeutral("", Print(body) + " if " + Print(test) + " else " + Print(orelse));
    case Compare(left, op, right) =>
      PrintsInside(left);
      PrintsInside(right);
      JoinInside(Print(left), Sign(op), Print(right));
      WrapIsNeutral("", Print(left) + Sign(op) + Print(right));
    case EnvGet(key) =>
      PrintsInside(key);
      WrapIsNeutral("os.environ.get", Print(key));
    case UrlSplit(arg) =>
      PrintsInside(arg);
      WrapIsNeutral("urlsplit", Print(arg));
    case RStrip(receiver, arg) =>
      PrintIsNeutral(receiver);
      PrintsInside(arg);
      MethodCallIsNeutral(Print(receiver), ".rstrip", Print(arg));
    case EndsWith(receiver, arg) =>
      PrintIsNeutral(receiver);
      PrintsInside(arg);
      MethodCallIsNeutral(Print(receiver), ".endswith", Print(arg));
  }

  lemma NamesArePlain()
    ensures Plain("os.environ.get") && Plain("urlsplit") && Plain(".rstrip")
  {
  }

  lemma SyntaxIsPlain()
    ensures Plain(".endswith") && Plain(".path") && Plain("None") && Plain(" if ") && Plain(" else ") && Plain("")
  {
  }

  function Sign(op: CompareOp): (sign: string)
    ensures Plain(sign)
  {
    match op case In => " in " case NotIn => " not in " case Eq => " == "
  }

  lemma {:induction false} PrintsInside(e: Expr)
    requires PlainConstants(e)
    ensures Neutral(Print(e), 1)
    decreases e, 2
  {
    PrintIsNeutral(e);
    RunDeeper(Print(e), 0, 1);
  }

  lemma JoinInside(a: string, sign: string, b: string)
    requires Neutral(a, 1) && Plain(sign) && Neutral(b, 1)
    ensures Neutral(a + sign + b, 1)
  {
    PlainIsNeutral(sign, 1);
    NeutralAppend(a, sign, 1);
    NeutralAppend(a + sign, b, 1);
  }

  lemma MethodCallIsNeutral(receiver: string, name: string, arg: string)
    requires Neutral(receiver, 0) && Plain(name) && Neutral(arg, 1)
    ensures Neutral(receiver + Wrap(name, arg), 0)
  {
    WrapIsNeutral(name, arg);
    NeutralAppend(receiver, Wrap(name, arg), 0);
  }

  /** Inside brackets a separating comma does not stop the scan. */
  lemma {:induction false} PrintEachIsNeutral(es: seq<Expr>, separator: string)
    requires forall e | e in es :: PlainConstants(e)
    requires separator == ", " || separator == " or "
    ensures Neutral(PrintEach(es, separator), 1)
    decreases es, 3
  {
    if es == [] {
    } else {
      PrintsInside(es[0]);
      PrintEachIsNeutral(es[1..], separator);
      SeparatorIsNeutral(separator);
      NeutralAppend(Print(es[0]), separator, 1);
      NeutralAppend(Print(es[0]) + separator, PrintEach(es[1..], separator), 1);
    }
  }

  lemma SeparatorIsNeutral(separator: string)
    requires separator == ", " || separator == " or "
    ensures Neutral(separator, 1)
  {
    if separator == ", " {
      assert separator[0] == ',' && separator[1..] == " ";
      PlainIsNeutral(" ", 1);
    } else {
      PlainIsNeutral(separator, 1);
    }
  }

  lemma {:induction false} PrintIsStripped(e: Expr)
    ensures Stripped(Print(e))
    decreases e
  {
    match e
    case PathOf(url) => PrintIsStripped(url);
    case RStrip(receiver, arg) => PrintIsStripped(receiver);
    case EndsWith(receiver, arg) => PrintIsStripped(receiver);
    case _ =>
  }

  /** A printed expression behind the one anchor of a file is extracted whole and unchanged. */
  lemma PrintedIsExtracted(e: Expr, src: string, before: string, rest: string, r: Extraction, stop: nat)
    requires PlainConstants(e) && EndsArgument(rest)
    requires src == before + ANCHOR + Print(e) + rest && |Matches(src, 0)| == 1
    requires var start := Matches(src, 0)[0] + |ANCHOR|; IsStop(src, start, stop) && r == Extracted(src, start, stop)
    ensures r == Expression(Print(e))
  {
    PrintIsNeutral(e);
    EnclosedIffRun(Print(e));
    PrintIsStripped(e);
    ExtractReturnsArgument(src, before, Print(e), rest, r, stop);
  }
}
