/**
 * The JSON value type of the transport catalogue and its pretty-printer
 * (transport-catalogue/json.h, json.cpp).  A node holds one of the seven
 * alternatives of Node::Value; the typed accessors throw logic_error on a
 * kind mismatch, modelled as a Fail result.  Printing writes to a stream;
 * here the text written is the string a method returns.
 */
module Json {
  import opened Common

  /** The alternatives of Node::Value, in declaration order. Dict is a std::map, so it is keyed by string. */
  datatype Node =
    | Null
    | Array(items: seq<Node>)
    | Dict(entries: map<string, Node>)
    | Bool(b: bool)
    | Int(i: int)
    | Double(d: real)
    | String(s: string)

  /** The two exception types the JSON code throws. */
  datatype Failure = ParsingError | LogicError

  datatype Result<T> = Ok(value: T) | Fail(failure: Failure)

  // ---------------------------------------------------------------------------
  // Kind tests (json.cpp:289-303).

  predicate IsInt(n: Node) { n.Int? }

  /** An int node also counts as a double. */
  predicate IsDouble(n: Node) { n.Double? || n.Int? }

  predicate IsPureDouble(n: Node) { n.Double? }

  predicate IsBool(n: Node) { n.Bool? }

  predicate IsString(n: Node) { n.String? }

  predicate IsNull(n: Node) { n.Null? }

  predicate IsArray(n: Node) { n.Array? }

  predicate IsMap(n: Node) { n.Dict? }

  // ---------------------------------------------------------------------------
  // Typed accessors (json.cpp:244-287): the held value, or logic_error.

  function AsArray(n: Node): Result<seq<Node>> {
    if IsArray(n) then Ok(n.items) else Fail(LogicError)
  }

  function AsMap(n: Node): Result<map<string, Node>> {
    if IsMap(n) then Ok(n.entries) else Fail(LogicError)
  }

  function AsInt(n: Node): Result<int> {
    if IsInt(n) then Ok(n.i) else Fail(LogicError)
  }

  function AsString(n: Node): Result<string> {
    if IsString(n) then Ok(n.s) else Fail(LogicError)
  }

  /** A double node yields its value, an int node its value widened to double. */
  function AsDouble(n: Node): Result<real> {
    if IsPureDouble(n) then Ok(n.d)
    else if IsDouble(n) then Ok(n.i as real)
    else Fail(LogicError)
  }

  function AsBool(n: Node): Result<bool> {
    if IsBool(n) then Ok(n.b) else Fail(LogicError)
  }

  /** Each accessor succeeds exactly on the nodes its kind test accepts. */
  lemma AccessorsMatchKinds(n: Node)
    ensures AsArray(n).Ok? <==> n.Array?
    ensures AsMap(n).Ok? <==> n.Dict?
    ensures AsInt(n).Ok? <==> n.Int?
    ensures AsString(n).Ok? <==> n.String?
    ensures AsBool(n).Ok? <==> n.Bool?
    ensures AsDouble(n).Ok? <==> n.Double? || n.Int?
  {
  }

  /** The accessors return what the constructors stored; AsDouble widens an int. */
  lemma AccessorsInvertConstructors(items: seq<Node>, m: map<string, Node>, i: int, d: real, s: string, b: bool)
    ensures AsArray(Array(items)) == Ok(items)
    ensures AsMap(Dict(m)) == Ok(m)
    ensures AsInt(Int(i)) == Ok(i)
    ensures AsString(String(s)) == Ok(s)
    ensures AsBool(Bool(b)) == Ok(b)
    ensures AsDouble(Double(d)) == Ok(d)
    ensures AsDouble(Int(i)) == Ok(i as real)
  {
  }

  // ---------------------------------------------------------------------------
  // String escaping (PrintString, json.cpp:335-359).

  /** What PrintString writes for one character: CR, LF, quote and backslash are escaped. */
  function EscapeChar(c: char): string {
    match c
    case '\r' => "\\r"
    case '\n' => "\\n"
    case '"' => "\\\""
    case '\\' => "\\\\"
    case _ => [c]
  }

  function Escaped(s: string): string {
    if s == [] then "" else EscapeChar(s[0]) + Escaped(s[1..])
  }

  /** The text of a string value: quoted and escaped. */
  function Quoted(s: string): string {
    "\"" + Escaped(s) + "\""
  }

  lemma {:induction false} EscapedConcat(a: string, b: string)
    ensures Escaped(a + b) == Escaped(a) + Escaped(b)
  {
    if a == [] {
      assert a + b == b;
    } else {
      assert (a + b)[1..] == a[1..] + b;
      EscapedConcat(a[1..], b);
    }
  }

  /** The escaped text has no raw line break, and never gets shorter than the original. */
  lemma {:induction false} EscapedShape(s: string)
    ensures '\n' !in Escaped(s) && '\r' !in Escaped(s)
    ensures |Escaped(s)| >= |s|
  {
    if s != [] {
      EscapedShape(s[1..]);
    }
  }

  method PrintString(value: string) returns (out: string)
    ensures out == Quoted(value)
  {
    out := "\"";
    for i := 0 to |value|
      invariant out == "\"" + Escaped(value[..i])
    {
      assert value[..i + 1] == value[..i] + [value[i]];
      EscapedConcat(value[..i], [value[i]]);
      assert Escaped([value[i]]) == EscapeChar(value[i]);
      out := out + EscapeChar(value[i]);
    }
    assert value[..|value|] == value;
    out := out + "\"";
  }

  // ---------------------------------------------------------------------------
  // Scalars as written by operator<< (ints in decimal, bools with boolalpha).

  function DigitChar(d: nat): char
    requires d < 10
  {
    ('0' as int + d) as char
  }

  function NatText(n: nat): (r: string)
    ensures |r| > 0 && forall k :: 0 <= k < |r| ==> '0' <= r[k] <= '9'
  {
    if n < 10 then [DigitChar(n)] else NatText(n / 10) + [DigitChar(n % 10)]
  }

  function IntText(i: int): string {
    if i < 0 then "-" + NatText(-i) else NatText(i)
  }

  // ---------------------------------------------------------------------------
  // std::map iterates its keys in ascending order.

  predicate IsLeast(k: string, s: set<string>) {
    k in s && forall x :: x in s ==> LessEq(k, x)
  }

  lemma {:induction false} LeastExists(s: set<string>)
    requires s != {}
    ensures exists k :: IsLeast(k, s)
    decreases |s|
  {
    var x :| x in s;
    if s != {x} {
      LeastExists(s - {x});
      var m :| IsLeast(m, s - {x});
      LessTotal(x, m);
      if LessEq(x, m) {
        forall y | y in s ensures LessEq(x, y) {
          if y != x {
            LessEqTransitive(x, m, y);
          }
        }
        assert IsLeast(x, s);
      } else {
        assert IsLeast(m, s);
      }
    } else {
      assert IsLeast(x, s);
    }
  }

  /** The keys of a set in ascending order: the iteration order of a std::map. */
  function Ascending(s: set<string>): (r: seq<string>)
    ensures Enumerates(r, s) && Sorted(r)
    decreases |s|
  {
    if s == {} then []
    else
      LeastExists(s);
      assert forall a, b :: IsLeast(a, s) && IsLeast(b, s) ==> a == b by {
        forall a, b | IsLeast(a, s) && IsLeast(b, s) ensures a == b {
          LessEqAntisymmetric(a, b);
        }
      }
      var k :| IsLeast(k, s);
      var rest := Ascending(s - {k});
      assert forall j :: 0 <= j < |rest| ==> LessEq(k, rest[j]);
      [k] + rest
  }

  // ---------------------------------------------------------------------------
  // Pretty-printing (PrintContext and PrintValue, json.cpp:317-432).

  /** Indentation state: the step is 4 and each nesting level indents one step further. */
  datatype PrintContext = PrintContext(indentStep: nat, indent: nat)

  const TopLevel := PrintContext(4, 0)

  function Indented(ctx: PrintContext): PrintContext {
    PrintContext(ctx.indentStep, ctx.indentStep + ctx.indent)
  }

  method PrintIndent(ctx: PrintContext) returns (out: string)
    ensures out == Repeat(' ', ctx.indent)
  {
    out := "";
    for i := 0 to ctx.indent
      invariant out == Repeat(' ', i)
    {
      out := out + " ";
    }
  }

  /**
   * The text PrintNode writes for a node.  Doubles are written through
   * `formatDouble`, which stands for the stream's floating-point formatting.
   */
  ghost function Printed(node: Node, ctx: PrintContext, formatDouble: real -> string): string
    decreases node, 1, 0
  {
    match node
    case Null => "null"
    case Bool(b) => if b then "true" else "false"
    case Int(i) => IntText(i)
    case Double(d) => formatDouble(d)
    case String(s) => Quoted(s)
    case Array(items) =>
      "[\n" + PrintedItems(items, |items|, Indented(ctx), formatDouble) + "\n" + Repeat(' ', ctx.indent) + "]"
    case Dict(m) =>
      var keys := Ascending(m.Keys);
      "{\n" + PrintedEntries(m, keys, |keys|, Indented(ctx), formatDouble) + "\n" + Repeat(' ', ctx.indent) + "}"
  }

  /** The first n elements, each on its own line at the inner indentation, separated by ",\n". */
  ghost function PrintedItems(items: seq<Node>, n: nat, inner: PrintContext, formatDouble: real -> string): string
    requires n <= |items|
    decreases Array(items), 0, n
  {
    if n == 0 then ""
    else
      PrintedItems(items, n - 1, inner, formatDouble) + (if n > 1 then ",\n" else "")
        + Repeat(' ', inner.indent) + Printed(items[n - 1], inner, formatDouble)
  }

  /** The entries of the first n keys, each as `"key": value` on its own line, separated by ",\n". */
  ghost function PrintedEntries(m: map<string, Node>, keys: seq<string>, n: nat, inner: PrintContext, formatDouble: real -> string): string
    requires n <= |keys| && forall k :: 0 <= k < |keys| ==> keys[k] in m
    decreases Dict(m), 0, n
  {
    if n == 0 then ""
    else
      var key := keys[n - 1];
      assert m[key] in m.Values;
      PrintedEntries(m, keys, n - 1, inner, formatDouble) + (if n > 1 then ",\n" else "")
        + Repeat(' ', inner.indent) + Quoted(key) + ": " + Printed(m[key], inner, formatDouble)
  }

  method PrintNode(node: Node, ctx: PrintContext, formatDouble: real -> string) returns (out: string)
    ensures out == Printed(node, ctx, formatDouble)
    decreases node, 1
  {
    match node
    case Null =>
      out := "null";
    case Bool(b) =>
      out := if b then "true" else "false";
    case Int(i) =>
      out := IntText(i);
    case Double(d) =>
      out := formatDouble(d);
    case String(s) =>
      out := PrintString(s);
    case Array(items) =>
      out := PrintArray(items, ctx, formatDouble);
    case Dict(m) =>
      out := PrintDict(m, ctx, formatDouble);
  }

  method PrintArray(items: seq<Node>, ctx: PrintContext, formatDouble: real -> string) returns (out: string)
    ensures out == Printed(Array(items), ctx, formatDouble)
    decreases Array(items), 0
  {
    var inner := Indented(ctx);
    var body := "";
    var first := true;
    for i := 0 to |items|
      invariant first <==> i == 0
      invariant body == PrintedItems(items, i, inner, formatDouble)
    {
      if first {
        first := false;
      } else {
        body := body + ",\n";
      }
      var indent := PrintIndent(inner);
      var text := PrintNode(items[i], inner, formatDouble);
      body := body + indent + text;
    }
    var closing := PrintIndent(ctx);
    out := "[\n" + body + "\n" + closing + "]";
  }

  method PrintDict(m: map<string, Node>, ctx: PrintContext, formatDouble: real -> string) returns (out: string)
    ensures out == Printed(Dict(m), ctx, formatDouble)
    decreases Dict(m), 0
  {
    var inner := Indented(ctx);
    var keys := Ascending(m.Keys);
    var body := "";
    var first := true;
    for i := 0 to |keys|
      invariant first <==> i == 0
      invariant body == PrintedEntries(m, keys, i, inner, formatDouble)
    {
      if first {
        first := false;
      } else {
        body := body + ",\n";
      }
      var indent := PrintIndent(inner);
      var key := PrintString(keys[i]);
      assert m[keys[i]] in m.Values;
      var text := PrintNode(m[keys[i]], inner, formatDouble);
      body := body + indent + key + ": " + text;
    }
    var closing := PrintIndent(ctx);
    out := "{\n" + body + "\n" + closing + "}";
  }

  /** Print: the root at indentation 0 with step 4. */
  method Print(root: Node, formatDouble: real -> string) returns (out: string)
    ensures out == Printed(root, TopLevel, formatDouble)
  {
    out := PrintNode(root, TopLevel, formatDouble);
  }
}
