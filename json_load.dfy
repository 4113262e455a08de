/**
 * The recursive-descent JSON reader of transport-catalogue/json.cpp
 * (LoadNode and the Load* helpers it dispatches to).  The input stream is
 * a string and a position; every Load* method returns the node it read and
 * the position after it, or the ParsingError it throws.  Each method is
 * proved equal to a Parse* function, and the properties of the reader are
 * lemmas about those functions.
 */
module JsonLoad {
  import opened Common
  import opened Json

  /** The characters `input >> c` skips (isspace in the C locale). */
  predicate IsSpace(c: char) {
    c == ' ' || c == '\t' || c == '\n' || c == '\U{000B}' || c == '\U{000C}' || c == '\r'
  }

  predicate IsDigit(c: char) {
    '0' <= c <= '9'
  }

  predicate IsAlpha(c: char) {
    'a' <= c <= 'z' || 'A' <= c <= 'Z'
  }

  /** Where `input >> c` reads its character: the first non-space at or after pos (|s| when there is none). */
  function SkipSpace(s: string, pos: nat): (p: nat)
    requires pos <= |s|
    ensures pos <= p <= |s|
    ensures forall k :: pos <= k < p ==> IsSpace(s[k])
    ensures p < |s| ==> !IsSpace(s[p])
    decreases |s| - pos
  {
    if pos < |s| && IsSpace(s[pos]) then SkipSpace(s, pos + 1) else pos
  }

  /** End of the run of characters satisfying `digits ? IsDigit : IsAlpha` that starts at pos. */
  function RunEnd(s: string, pos: nat, digits: bool): (q: nat)
    requires pos <= |s|
    ensures pos <= q <= |s|
    ensures forall k :: pos <= k < q ==> if digits then IsDigit(s[k]) else IsAlpha(s[k])
    ensures q < |s| ==> !(if digits then IsDigit(s[q]) else IsAlpha(s[q]))
    decreases |s| - pos
  {
    if pos < |s| && (if digits then IsDigit(s[pos]) else IsAlpha(s[pos])) then RunEnd(s, pos + 1, digits) else pos
  }

  // ---------------------------------------------------------------------------
  // Literals (LoadLine, LoadNull, LoadBool: json.cpp:15-23, 42-62).

  /** LoadLine: the letters from pos on. */
  method LoadLine(s: string, pos: nat) returns (word: string, q: nat)
    requires pos <= |s|
    ensures q == RunEnd(s, pos, false) && word == s[pos..q]
  {
    word := "";
    q := pos;
    while q < |s| && IsAlpha(s[q])
      invariant pos <= q <= |s| && word == s[pos..q]
      invariant RunEnd(s, q, false) == RunEnd(s, pos, false)
    {
      word := word + [s[q]];
      q := q + 1;
    }
  }

  function ParseNull(s: string, pos: nat): (r: Result<(Node, nat)>)
    requires pos <= |s|
  {
    var q := RunEnd(s, pos, false);
    if s[pos..q] == "null" then Ok((Null, q)) else Fail(ParsingError)
  }

  function ParseBool(s: string, pos: nat): (r: Result<(Node, nat)>)
    requires pos <= |s|
  {
    var q := RunEnd(s, pos, false);
    if s[pos..q] == "true" then Ok((Bool(true), q))
    else if s[pos..q] == "false" then Ok((Bool(false), q))
    else Fail(ParsingError)
  }

  method LoadNull(s: string, pos: nat) returns (r: Result<(Node, nat)>)
    requires pos <= |s|
    ensures r == ParseNull(s, pos)
  {
    var line, q := LoadLine(s, pos);
    if line == "null" {
      return Ok((Null, q));
    }
    return Fail(ParsingError);
  }

  method LoadBool(s: string, pos: nat) returns (r: Result<(Node, nat)>)
    requires pos <= |s|
    ensures r == ParseBool(s, pos)
  {
    var line, q := LoadLine(s, pos);
    if line == "true" {
      return Ok((Bool(true), q));
    }
    if line == "false" {
      return Ok((Bool(false), q));
    }
    return Fail(ParsingError);
  }

  /** A literal is read exactly when its letters stand alone: not followed by another letter. */
  lemma LiteralExact(s: string, pos: nat, word: string, node: Node)
    requires pos <= |s|
    requires (word, node) in {("true", Bool(true)), ("false", Bool(false)), ("null", Null)}
    ensures (if word == "null" then ParseNull(s, pos) else ParseBool(s, pos)) == Ok((node, pos + |word|))
      <==> pos + |word| <= |s| && s[pos..pos + |word|] == word && (pos + |word| == |s| || !IsAlpha(s[pos + |word|]))
  {
    var q := RunEnd(s, pos, false);
    var e := pos + |word|;
    if e <= |s| && s[pos..e] == word && (e == |s| || !IsAlpha(s[e])) {
      assert forall k :: pos <= k < e ==> IsAlpha(s[k]) by {
        forall k | pos <= k < e ensures IsAlpha(s[k]) {
          assert s[k] == word[k - pos];
        }
      }
      RunEndAt(s, pos, e, false);
    }
  }

  /** A run that ends at e, and cannot be extended there, is the run RunEnd finds. */
  lemma {:induction false} RunEndAt(s: string, pos: nat, e: nat, digits: bool)
    requires pos <= e <= |s|
    requires forall k :: pos <= k < e ==> if digits then IsDigit(s[k]) else IsAlpha(s[k])
    requires e < |s| ==> !(if digits then IsDigit(s[e]) else IsAlpha(s[e]))
    ensures RunEnd(s, pos, digits) == e
    decreases e - pos
  {
    if pos < e {
      RunEndAt(s, pos + 1, e, digits);
    }
  }

  // ---------------------------------------------------------------------------
  // Numbers (LoadNumber, json.cpp:64-124).

  /**
   * The parts of a numeral as LoadNumber reads them: an optional minus, the
   * integer digits, the fraction digits after '.', and the exponent marker
   * ("e" or "E" with an optional sign; empty when there is no exponent)
   * followed by the exponent digits.
   */
  datatype Numeral = Numeral(negative: bool, whole: string, fraction: string, exponentMark: string, exponent: string)

  predicate AllDigits(t: string) {
    forall k :: 0 <= k < |t| ==> IsDigit(t[k])
  }

  /** The number grammar of section 6 of RFC 8259, part by part. */
  predicate WellFormedNumeral(n: Numeral) {
    && (n.whole == "0" || (|n.whole| > 0 && n.whole[0] != '0' && AllDigits(n.whole)))
    && AllDigits(n.fraction)
    && n.exponentMark in {"", "e", "E", "e+", "e-", "E+", "E-"}
    && (n.exponentMark == "" <==> n.exponent == "")
    && AllDigits(n.exponent)
  }

  /** The characters of a numeral, in input order. */
  function NumeralText(n: Numeral): string {
    (if n.negative then "-" else "") + n.whole + (if n.fraction == "" then "" else "." + n.fraction)
      + n.exponentMark + n.exponent
  }

  /** End of the integer part at a: a lone '0', or a run of digits (a itself when there is no digit). */
  function WholeEnd(s: string, a: nat): (b: nat)
    requires a <= |s|
    ensures a <= b <= |s|
  {
    if a < |s| && s[a] == '0' then a + 1 else RunEnd(s, a, true)
  }

  /** End of the fraction at b: b without a '.', b + 1 when the '.' has no digit after it. */
  function FractionEnd(s: string, b: nat): (c: nat)
    requires b <= |s|
    ensures b <= c <= |s|
  {
    if b < |s| && s[b] == '.' then RunEnd(s, b + 1, true) else b
  }

  /** Where the exponent digits start: after 'e' or 'E' and an optional sign; c itself without an exponent. */
  function ExponentStart(s: string, c: nat): (d: nat)
    requires c <= |s|
    ensures c <= d <= |s|
  {
    if c < |s| && (s[c] == 'e' || s[c] == 'E') then
      if c + 1 < |s| && (s[c + 1] == '+' || s[c + 1] == '-') then c + 2 else c + 1
    else c
  }

  /** The text LoadNumber consumes from pos, split into its parts, and the position after it. */
  function ScanNumber(s: string, pos: nat): Result<(Numeral, nat)>
    requires pos <= |s|
  {
    var negative := pos < |s| && s[pos] == '-';
    var a := if negative then pos + 1 else pos;
    var b := WholeEnd(s, a);
    var c := FractionEnd(s, b);
    var d := ExponentStart(s, c);
    var e: nat := if d == c then c else RunEnd(s, d, true);
    if b == a || c == b + 1 || (d > c && e == d) then Fail(ParsingError)
    else Ok((Numeral(negative, s[a..b], if c == b then "" else s[b + 1..c], s[c..d], s[d..e]), e))
  }

  /** Value of a run of decimal digits. */
  function DigitsValue(t: string): nat
    requires AllDigits(t)
  {
    if t == [] then 0 else 10 * DigitsValue(t[..|t| - 1]) + (t[|t| - 1] as int - '0' as int)
  }

  /** m times ten to the power e. */
  function Shift(m: real, e: int): real
    decreases if e < 0 then -e else e
  {
    if e == 0 then m else if e > 0 then Shift(m * 10.0, e - 1) else Shift(m / 10.0, e + 1)
  }

  /** The range of a 32-bit int, where stoi succeeds. */
  const IntMin: int := -0x8000_0000
  const IntMax: int := 0x7FFF_FFFF

  /** The signed value of the integer part. */
  function WholeValue(n: Numeral): int
    requires AllDigits(n.whole)
  {
    if n.negative then -(DigitsValue(n.whole) as int) else DigitsValue(n.whole)
  }

  /** The exact value of a numeral with a fraction or an exponent. */
  function DecimalValue(n: Numeral): real
    requires AllDigits(n.whole) && AllDigits(n.fraction) && AllDigits(n.exponent)
  {
    assert AllDigits(n.whole + n.fraction);
    var digits := DigitsValue(n.whole + n.fraction) as real;
    var exponent := if |n.exponentMark| == 2 && n.exponentMark[1] == '-' then -(DigitsValue(n.exponent) as int) else DigitsValue(n.exponent);
    Shift(if n.negative then -digits else digits, exponent - |n.fraction|)
  }

  /**
   * The node LoadNumber builds: an int when the numeral has neither fraction
   * nor exponent and stoi accepts it (it fits 32 bits), a double otherwise.
   */
  function NumberNode(n: Numeral): Node
    requires AllDigits(n.whole) && AllDigits(n.fraction) && AllDigits(n.exponent)
  {
    if n.fraction == "" && n.exponentMark == "" then
      var v := WholeValue(n);
      if IntMin <= v <= IntMax then Int(v) else Double(v as real)
    else Double(DecimalValue(n))
  }

  function ParseNumber(s: string, pos: nat): (r: Result<(Node, nat)>)
    requires pos <= |s|
    ensures r.Ok? ==> pos < r.value.1 <= |s|
  {
    match ScanNumber(s, pos)
    case Fail(f) => Fail(f)
    case Ok((n, e)) => ScanNumberShape(s, pos); Ok((NumberNode(n), e))
  }

  lemma WholeShape(s: string, a: nat)
    requires a <= |s|
    ensures var b := WholeEnd(s, a);
      b > a ==> s[a..b] == "0" || (s[a] != '0' && AllDigits(s[a..b]))
  {
  }

  lemma FractionShape(s: string, b: nat)
    requires b <= |s|
    ensures var c := FractionEnd(s, b);
      c != b + 1 ==> c == b || (s[b..c] == "." + s[b + 1..c] && AllDigits(s[b + 1..c]))
  {
    var c := FractionEnd(s, b);
    if c > b + 1 {
      assert s[b..c] == [s[b]] + s[b + 1..c];
    }
  }

  lemma ExponentShape(s: string, c: nat)
    requires c <= |s|
    ensures s[c..ExponentStart(s, c)] in {"", "e", "E", "e+", "e-", "E+", "E-"}
  {
    var d := ExponentStart(s, c);
    if d == c + 2 {
      assert s[c..d] == [s[c], s[c + 1]];
    } else if d == c + 1 {
      assert s[c..d] == [s[c]];
    }
  }

  lemma Slices(s: string, i: nat, j: nat, k: nat)
    requires i <= j <= k <= |s|
    ensures s[i..k] == s[i..j] + s[j..k]
  {
  }

  /** The five parts of a numeral, found one after the other, make up its text. */
  lemma NumeralTextParts(s: string, pos: nat, a: nat, b: nat, c: nat, d: nat, e: nat, n: Numeral)
    requires pos <= a <= b <= c <= d <= e <= |s|
    requires s[pos..a] == (if n.negative then "-" else "") && s[a..b] == n.whole
    requires s[b..c] == (if n.fraction == "" then "" else "." + n.fraction)
    requires s[c..d] == n.exponentMark && s[d..e] == n.exponent
    ensures s[pos..e] == NumeralText(n)
  {
    Slices(s, pos, a, b);
    var upToWhole := (if n.negative then "-" else "") + n.whole;
    assert s[pos..b] == upToWhole;
    Slices(s, pos, b, c);
    var upToFraction := upToWhole + (if n.fraction == "" then "" else "." + n.fraction);
    assert s[pos..c] == upToFraction;
    Slices(s, pos, c, d);
    assert s[pos..d] == upToFraction + n.exponentMark;
    Slices(s, pos, d, e);
  }

  /** The parts found at the boundaries ScanNumber computes follow the grammar, when none is missing. */
  lemma ScanPartsWellFormed(s: string, a: nat, b: nat, c: nat, d: nat, e: nat, n: Numeral)
    requires a <= |s| && b == WholeEnd(s, a) && c == FractionEnd(s, b) && d == ExponentStart(s, c)
    requires e == (if d == c then c else RunEnd(s, d, true))
    requires !(b == a || c == b + 1 || (d > c && e == d))
    requires n.whole == s[a..b] && n.fraction == (if c == b then "" else s[b + 1..c])
    requires n.exponentMark == s[c..d] && n.exponent == s[d..e]
    ensures WellFormedNumeral(n)
  {
    WholeShape(s, a);
    FractionShape(s, b);
    ExponentShape(s, c);
  }

  /** The parts found at the boundaries ScanNumber computes make up the text from pos to e. */
  lemma ScanPartsText(s: string, pos: nat, a: nat, b: nat, c: nat, d: nat, e: nat, n: Numeral)
    requires pos <= |s| && n.negative == (pos < |s| && s[pos] == '-') && a == (if n.negative then pos + 1 else pos)
    requires b == WholeEnd(s, a) && c == FractionEnd(s, b) && d == ExponentStart(s, c)
    requires e == (if d == c then c else RunEnd(s, d, true)) && c != b + 1
    requires n.whole == s[a..b] && n.fraction == (if c == b then "" else s[b + 1..c])
    requires n.exponentMark == s[c..d] && n.exponent == s[d..e]
    ensures s[pos..e] == NumeralText(n)
  {
    FractionShape(s, b);
    assert s[pos..a] == if n.negative then "-" else "";
    assert s[b..c] == if n.fraction == "" then "" else "." + n.fraction;
    NumeralTextParts(s, pos, a, b, c, d, e, n);
  }

  /** What LoadNumber consumes is a numeral of section 6 of RFC 8259, read part by part. */
  lemma ScanNumberShape(s: string, pos: nat)
    requires pos <= |s|
    ensures ScanNumber(s, pos).Ok? ==>
      var (n, e) := ScanNumber(s, pos).value;
      && pos < e <= |s|
      && WellFormedNumeral(n)
      && s[pos..e] == NumeralText(n)
  {
    if ScanNumber(s, pos).Ok? {
      var negative := pos < |s| && s[pos] == '-';
      var a := if negative then pos + 1 else pos;
      var b := WholeEnd(s, a);
      var c := FractionEnd(s, b);
      var d := ExponentStart(s, c);
      var e: nat := if d == c then c else RunEnd(s, d, true);
      var n := Numeral(negative, s[a..b], if c == b then "" else s[b + 1..c], s[c..d], s[d..e]);
      assert ScanNumber(s, pos) == Ok((n, e));
      ScanPartsWellFormed(s, a, b, c, d, e, n);
      ScanPartsText(s, pos, a, b, c, d, e, n);
    }
  }

  /** A number node is an int only for a numeral without fraction and exponent whose value fits 32 bits. */
  lemma NumberIntOnlyWithoutFraction(s: string, pos: nat)
    requires pos <= |s|
    requires ScanNumber(s, pos).Ok?
    ensures var n := ScanNumber(s, pos).value.0;
      ParseNumber(s, pos).value.0.Int? <==>
        n.fraction == "" && n.exponentMark == "" && IntMin <= WholeValue(n) <= IntMax
  {
    ScanNumberShape(s, pos);
  }

  /** ScanNumber in terms of the part boundaries, when none of them is missing. */
  lemma ScanNumberParts(s: string, pos: nat, a: nat, b: nat, c: nat, d: nat, e: nat, n: Numeral)
    requires pos <= |s| && n.negative == (pos < |s| && s[pos] == '-') && a == (if n.negative then pos + 1 else pos)
    requires b == WholeEnd(s, a) && c == FractionEnd(s, b) && d == ExponentStart(s, c)
    requires e == (if d == c then c else RunEnd(s, d, true))
    requires b != a && c != b + 1 && !(d > c && e == d)
    requires n.whole == s[a..b] && n.fraction == (if c == b then "" else s[b + 1..c])
    requires n.exponentMark == s[c..d] && n.exponent == s[d..e]
    ensures ScanNumber(s, pos) == Ok((n, e))
  {
  }

  /** LoadNumber's result, from what ScanNumber reads. */
  lemma NumberOfScan(s: string, pos: nat, n: Numeral, e: nat)
    requires pos <= |s| && ScanNumber(s, pos) == Ok((n, e))
    ensures AllDigits(n.whole) && AllDigits(n.fraction) && AllDigits(n.exponent)
    ensures ParseNumber(s, pos) == Ok((NumberNode(n), e))
  {
    ScanNumberShape(s, pos);
  }

  /** LoadNumber fails as soon as one part lacks its digits. */
  lemma NumberMissingDigits(s: string, pos: nat, b: nat, c: nat, d: nat)
    requires pos <= |s|
    requires var a := if pos < |s| && s[pos] == '-' then pos + 1 else pos;
      && b == WholeEnd(s, a)
      && (|| b == a
          || (c == FractionEnd(s, b) && c == b + 1)
          || (c == FractionEnd(s, b) && c != b + 1 && d == ExponentStart(s, c) && d > c && RunEnd(s, d, true) == d))
    ensures ParseNumber(s, pos) == Fail(ParsingError)
  {
  }

  method ReadDigits(s: string, pos: nat) returns (q: nat)
    requires pos <= |s|
    ensures q == RunEnd(s, pos, true)
  {
    q := pos;
    while q < |s| && IsDigit(s[q])
      invariant pos <= q <= |s|
      invariant RunEnd(s, q, true) == RunEnd(s, pos, true)
    {
      q := q + 1;
    }
  }

  /** The integer part: a lone '0' is one character, anything else goes to read_digits. */
  method ReadWhole(s: string, a: nat) returns (b: nat)
    requires a <= |s|
    ensures b == WholeEnd(s, a)
  {
    if a < |s| && s[a] == '0' {
      b := a + 1;
    } else {
      b := ReadDigits(s, a);
    }
  }

  /** The fraction: '.' and the digits after it, when the next character is '.'. */
  method ReadFraction(s: string, b: nat) returns (c: nat)
    requires b <= |s|
    ensures c == FractionEnd(s, b)
  {
    c := b;
    if b < |s| && s[b] == '.' {
      c := ReadDigits(s, b + 1);
    }
  }

  /** The exponent: 'e' or 'E', an optional sign, and the digits (d is where the digits start). */
  method ReadExponent(s: string, c: nat) returns (d: nat, e: nat)
    requires c <= |s|
    ensures d == ExponentStart(s, c)
    ensures e == if d == c then c else RunEnd(s, d, true)
  {
    d, e := c, c;
    if c < |s| && (s[c] == 'e' || s[c] == 'E') {
      d := c + 1;
      if d < |s| && (s[d] == '+' || s[d] == '-') {
        d := d + 1;
      }
      e := ReadDigits(s, d);
    }
  }

  /**
   * LoadNumber: an optional '-', then a lone '0' or digits, then an optional
   * '.' with digits, then an optional exponent; read_digits throws where a
   * digit is expected and none follows.  The numeral is an int unless it has
   * a fraction or an exponent.
   */
  method LoadNumber(s: string, pos: nat) returns (r: Result<(Node, nat)>)
    requires pos <= |s|
    ensures r == ParseNumber(s, pos)
  {
    var negative := pos < |s| && s[pos] == '-';
    var a := if negative then pos + 1 else pos;
    var b := ReadWhole(s, a);
    if b == a {
      NumberMissingDigits(s, pos, b, 0, 0);
      return Fail(ParsingError);
    }
    var c := ReadFraction(s, b);
    if c == b + 1 {
      NumberMissingDigits(s, pos, b, c, 0);
      return Fail(ParsingError);
    }
    var d, e := ReadExponent(s, c);
    if d > c && e == d {
      NumberMissingDigits(s, pos, b, c, d);
      return Fail(ParsingError);
    }
    var isInt := c == b && d == c;
    var n := Numeral(negative, s[a..b], if c == b then "" else s[b + 1..c], s[c..d], s[d..e]);
    ScanNumberParts(s, pos, a, b, c, d, e, n);
    NumberOfScan(s, pos, n, e);
    assert isInt <==> n.fraction == "" && n.exponentMark == "";
    r := Ok((NumberNode(n), e));
  }

  // ---------------------------------------------------------------------------
  // Strings (LoadString, json.cpp:126-175).

  /** The character an escape sequence `\c` stands for; only n, t, r, quote and backslash are known. */
  function Unescape(c: char): Option<char> {
    match c
    case 'n' => Some('\n')
    case 't' => Some('\t')
    case 'r' => Some('\r')
    case '"' => Some('"')
    case '\\' => Some('\\')
    case _ => None
  }

  /** One turn of LoadString's loop: the closing quote, a decoded character and where the next starts, or an error. */
  datatype StringStep = Closed | Decoded(c: char, next: nat) | Invalid

  function StepString(s: string, pos: nat): (r: StringStep)
    requires pos <= |s|
    ensures r.Closed? ==> pos < |s|
    ensures r.Decoded? ==> pos < r.next <= |s|
  {
    if pos == |s| then Invalid
    else if s[pos] == '"' then Closed
    else if s[pos] == '\\' then
      if pos + 1 == |s| then Invalid
      else match Unescape(s[pos + 1])
        case None => Invalid
        case Some(c) => Decoded(c, pos + 2)
    else if s[pos] == '\n' || s[pos] == '\r' then Invalid
    else Decoded(s[pos], pos + 1)
  }

  /** Reads the rest of a string literal whose opening quote is already consumed; acc is what was decoded so far. */
  function ParseString(s: string, pos: nat, acc: string): (r: Result<(string, nat)>)
    requires pos <= |s|
    ensures r.Ok? ==> pos < r.value.1 <= |s|
    decreases |s| - pos
  {
    match StepString(s, pos)
    case Invalid => Fail(ParsingError)
    case Closed => Ok((acc, pos + 1))
    case Decoded(c, next) => ParseString(s, next, acc + [c])
  }

  method LoadString(s: string, pos: nat) returns (r: Result<(string, nat)>)
    requires pos <= |s|
    ensures r == ParseString(s, pos, "")
  {
    var it := pos;
    var acc := "";
    while true
      invariant pos <= it <= |s|
      invariant ParseString(s, it, acc) == ParseString(s, pos, "")
      decreases |s| - it
    {
      if it == |s| {
        return Fail(ParsingError);
      }
      var ch := s[it];
      if ch == '"' {
        return Ok((acc, it + 1));
      } else if ch == '\\' {
        it := it + 1;
        if it == |s| {
          return Fail(ParsingError);
        }
        match Unescape(s[it]) {
          case None =>
            return Fail(ParsingError);
          case Some(c) =>
            acc := acc + [c];
        }
      } else if ch == '\n' || ch == '\r' {
        return Fail(ParsingError);
      } else {
        acc := acc + [ch];
      }
      it := it + 1;
    }
  }

  /** The text t occurs in s at position pos. */
  predicate At(s: string, pos: nat, t: string)
    decreases |t|
  {
    pos + |t| <= |s| && (t == [] || (s[pos] == t[0] && At(s, pos + 1, t[1..])))
  }

  lemma {:induction false} AtSlice(s: string, pos: nat, t: string)
    requires pos + |t| <= |s| && s[pos..pos + |t|] == t
    ensures At(s, pos, t)
    decreases |t|
  {
    if t != [] {
      assert s[pos] == t[0];
      assert s[pos + 1..pos + 1 + |t[1..]|] == t[1..];
      AtSlice(s, pos + 1, t[1..]);
    }
  }

  lemma {:induction false} AtConcat(s: string, pos: nat, a: string, b: string)
    ensures At(s, pos, a + b) <==> At(s, pos, a) && At(s, pos + |a|, b)
    decreases |a|
  {
    if a == [] {
      assert a + b == b;
    } else {
      assert (a + b)[0] == a[0] && (a + b)[1..] == a[1..] + b;
      AtConcat(s, pos + 1, a[1..], b);
    }
  }

  /** Reading one escaped character back decodes it. */
  lemma EscapeCharReadsBack(s: string, pos: nat, c: char)
    requires At(s, pos, EscapeChar(c)) && pos + |EscapeChar(c)| < |s|
    ensures StepString(s, pos) == Decoded(c, pos + |EscapeChar(c)|)
  {
    var w := EscapeChar(c);
    assert s[pos] == w[0];
    if |w| == 2 {
      assert At(s, pos + 1, w[1..]);
      assert s[pos + 1] == w[1];
    }
  }

  /** After a decoded character, LoadString goes on from the next position with that character appended. */
  lemma StringStepsOn(s: string, pos: nat, acc: string, c: char, next: nat)
    requires pos <= |s| && StepString(s, pos) == Decoded(c, next)
    ensures ParseString(s, pos, acc) == ParseString(s, next, acc + [c])
  {
  }

  /** At the closing quote, LoadString returns what it has read. */
  lemma ClosingQuoteReads(s: string, pos: nat, acc: string, v: string)
    requires v == [] && At(s, pos + |Escaped(v)|, "\"")
    ensures ParseString(s, pos, acc) == Ok((acc + v, pos + |Escaped(v)| + 1))
  {
    assert s[pos] == "\""[0];
    assert acc + v == acc;
  }

  lemma AppendFirst(acc: string, v: string)
    requires v != []
    ensures acc + [v[0]] + v[1..] == acc + v
  {
    assert v == [v[0]] + v[1..];
  }

  /** Where the escaped text of a non-empty string sits, so do its first character's and the rest's. */
  lemma EscapedSplits(s: string, pos: nat, v: string)
    requires v != [] && At(s, pos, Escaped(v)) && At(s, pos + |Escaped(v)|, "\"")
    ensures At(s, pos, EscapeChar(v[0]))
    ensures At(s, pos + |EscapeChar(v[0])|, Escaped(v[1..]))
    ensures pos + |EscapeChar(v[0])| + |Escaped(v[1..])| == pos + |Escaped(v)| < |s|
  {
    AtConcat(s, pos, EscapeChar(v[0]), Escaped(v[1..]));
  }

  /** The first character of a non-empty string, decoded, followed by the rest read back, gives the string. */
  lemma FirstThenRest(s: string, pos: nat, v: string, acc: string, end: nat)
    requires v != [] && At(s, pos, EscapeChar(v[0])) && pos + |EscapeChar(v[0])| < |s|
    requires ParseString(s, pos + |EscapeChar(v[0])|, acc + [v[0]]) == Ok((acc + [v[0]] + v[1..], end))
    ensures ParseString(s, pos, acc) == Ok((acc + v, end))
  {
    EscapeCharReadsBack(s, pos, v[0]);
    StringStepsOn(s, pos, acc, v[0], pos + |EscapeChar(v[0])|);
    AppendFirst(acc, v);
  }

  /** Reading the escaped text back, up to the closing quote, yields the original characters. */
  lemma {:induction false} EscapedReadsBack(s: string, pos: nat, v: string, acc: string)
    requires At(s, pos, Escaped(v)) && At(s, pos + |Escaped(v)|, "\"")
    ensures ParseString(s, pos, acc) == Ok((acc + v, pos + |Escaped(v)| + 1))
    decreases |v|
  {
    if v == [] {
      ClosingQuoteReads(s, pos, acc, v);
    } else {
      EscapedSplits(s, pos, v);
      EscapedReadsBack(s, pos + |EscapeChar(v[0])|, v[1..], acc + [v[0]]);
      FirstThenRest(s, pos, v, acc, pos + |Escaped(v)| + 1);
    }
  }

  /** PrintString's output, read back by LoadNode, is the original string (for every string). */
  lemma QuotedLoads(v: string, rest: string)
    ensures ParseNode(Quoted(v) + rest, 0) == Ok((String(v), |Quoted(v)|))
  {
    var s := Quoted(v) + rest;
    assert s[0] == '"';
    assert SkipSpace(s, 0) == 0;
    AtSlice(s, 0, Quoted(v));
    AtConcat(s, 0, "\"" + Escaped(v), "\"");
    AtConcat(s, 0, "\"", Escaped(v));
    EscapedReadsBack(s, 1, v, "");
    assert "" + v == v;
  }

  // ---------------------------------------------------------------------------
  // Nodes, arrays and dicts (LoadNode, LoadArray, LoadDict: json.cpp:25-40, 177-236).

  /** LoadNode: dispatch on the first non-space character. */
  function ParseNode(s: string, pos: nat): (r: Result<(Node, nat)>)
    requires pos <= |s|
    ensures r.Ok? ==> pos < r.value.1 <= |s|
    decreases |s| - pos, 0
  {
    var p := SkipSpace(s, pos);
    if p == |s| then Fail(ParsingError)
    else if s[p] == '[' then ParseArray(s, p + 1, [])
    else if s[p] == '{' then ParseDict(s, p + 1, map[])
    else if s[p] == '"' then
      match ParseString(s, p + 1, "")
      case Fail(f) => Fail(f)
      case Ok((v, q)) => Ok((String(v), q))
    else if s[p] == 't' || s[p] == 'f' then ParseBool(s, p)
    else if s[p] == 'n' then ParseNull(s, p)
    else ParseNumber(s, p)
  }

  /** One pass of the loop of LoadArray: the closing bracket, an item, or a failure. */
  datatype ArrayStep = ArrayClosed(end: nat) | Item(item: Node, next: nat) | ArrayFailed(failure: Failure)

  /**
   * One pass of the loop of LoadArray at pos.  A comma before an element is
   * skipped, but none is required; input ending before ']' is an error.
   */
  function StepArray(s: string, pos: nat): (r: ArrayStep)
    requires pos <= |s|
    ensures r.ArrayClosed? ==> pos < r.end <= |s|
    ensures r.Item? ==> pos < r.next <= |s|
    decreases |s| - pos, 2
  {
    var p := SkipSpace(s, pos);
    if p == |s| then ArrayFailed(ParsingError)
    else if s[p] == ']' then ArrayClosed(p + 1)
    else ItemAt(s, if s[p] == ',' then p + 1 else p)
  }

  /** An item of an array, loaded at q. */
  function ItemAt(s: string, q: nat): (r: ArrayStep)
    requires q <= |s|
    ensures r.Item? ==> q < r.next <= |s|
    ensures !r.ArrayClosed?
    decreases |s| - q, 1
  {
    match ParseNode(s, q)
    case Fail(f) => ArrayFailed(f)
    case Ok((n, next)) => Item(n, next)
  }

  /** The loop of LoadArray from pos on, with `items` read so far. */
  function ParseArray(s: string, pos: nat, items: seq<Node>): (r: Result<(Node, nat)>)
    requires pos <= |s|
    ensures r.Ok? ==> pos < r.value.1 <= |s|
    decreases |s| - pos, 3
  {
    match StepArray(s, pos)
    case ArrayClosed(end) => Ok((Array(items), end))
    case Item(n, next) => ParseArray(s, next, items + [n])
    case ArrayFailed(f) => Fail(f)
  }

  /** One pass of the loop of LoadDict: the closing brace, an entry, a comma, or a failure. */
  datatype DictStep = DictClosed(end: nat) | Entry(key: string, value: Node, next: nat) | Comma(next: nat) | DictFailed(failure: Failure)

  /**
   * One pass of the loop of LoadDict at pos.  A key must be followed by ':'
   * and must not repeat; a character other than a quote, ',' or '}' where a
   * key may start is an error, and so is input ending before '}'.
   */
  function StepDict(s: string, pos: nat, entries: map<string, Node>): (r: DictStep)
    requires pos <= |s|
    ensures r.DictClosed? ==> pos < r.end <= |s|
    ensures r.Entry? ==> pos < r.next <= |s| && r.key !in entries
    ensures r.Comma? ==> pos < r.next <= |s|
    decreases |s| - pos, 0
  {
    var p := SkipSpace(s, pos);
    if p == |s| then DictFailed(ParsingError)
    else if s[p] == '}' then DictClosed(p + 1)
    else if s[p] == ',' then Comma(p + 1)
    else if s[p] != '"' then DictFailed(ParsingError)
    else
      match ParseString(s, p + 1, "")
      case Fail(f) => DictFailed(f)
      case Ok((key, q)) =>
        var c := SkipSpace(s, q);
        if c == |s| || s[c] != ':' then DictFailed(ParsingError)
        else if key in entries then DictFailed(ParsingError)
        else EntryValue(s, c, key)
  }

  /** The value of an entry, loaded after the ':' at c, with its key. */
  function EntryValue(s: string, c: nat, key: string): (r: DictStep)
    requires c < |s|
    ensures r.Entry? ==> c < r.next <= |s| && r.key == key
    ensures r.Entry? || r.DictFailed?
    decreases |s| - c, 0
  {
    match ParseNode(s, c + 1)
    case Fail(f) => DictFailed(f)
    case Ok((n, next)) => Entry(key, n, next)
  }

  /** The loop of LoadDict from pos on, with the entries read so far. */
  function ParseDict(s: string, pos: nat, entries: map<string, Node>): (r: Result<(Node, nat)>)
    requires pos <= |s|
    ensures r.Ok? ==> pos < r.value.1 <= |s|
    decreases |s| - pos, 1
  {
    match StepDict(s, pos, entries)
    case DictClosed(end) => Ok((Dict(entries), end))
    case Entry(key, n, next) => ParseDict(s, next, entries[key := n])
    case Comma(next) => ParseDict(s, next, entries)
    case DictFailed(f) => Fail(f)
  }

  /** LoadNode: skips whitespace and dispatches on the first character, as ParseNode does. */
  method LoadNode(s: string, pos: nat) returns (r: Result<(Node, nat)>)
    requires pos <= |s|
    ensures r == ParseNode(s, pos)
    decreases |s| - pos, 0
  {
    var p := SkipSpace(s, pos);
    if p == |s| {
      return Fail(ParsingError);
    }
    var c := s[p];
    if c == '[' {
      r := LoadArray(s, p + 1);
    } else if c == '{' {
      r := LoadDict(s, p + 1);
    } else if c == '"' {
      var str := LoadString(s, p + 1);
      match str {
        case Fail(f) =>
          r := Fail(f);
        case Ok((v, q)) =>
          r := Ok((String(v), q));
      }
    } else if c == 't' || c == 'f' {
      r := LoadBool(s, p);
    } else if c == 'n' {
      r := LoadNull(s, p);
    } else {
      r := LoadNumber(s, p);
    }
  }

  method LoadArray(s: string, pos: nat) returns (r: Result<(Node, nat)>)
    requires pos <= |s|
    ensures r == ParseArray(s, pos, [])
    decreases |s| - pos, 3
  {
    var result: seq<Node> := [];
    var p := pos;
    while true
      invariant pos <= p <= |s|
      invariant ParseArray(s, p, result) == ParseArray(s, pos, [])
      decreases |s| - p
    {
      var step := ReadArrayStep(s, p);
      match step {
        case ArrayClosed(end) =>
          return Ok((Array(result), end));
        case ArrayFailed(f) =>
          return Fail(f);
        case Item(n, next) =>
          result := result + [n];
          p := next;
      }
    }
  }

  /** The body of LoadArray's loop: skip spaces and an optional comma, then stop at ']' or load an item. */
  method ReadArrayStep(s: string, pos: nat) returns (r: ArrayStep)
    requires pos <= |s|
    ensures r == StepArray(s, pos)
    decreases |s| - pos, 2
  {
    var p := SkipSpace(s, pos);
    if p == |s| {
      return ArrayFailed(ParsingError);
    }
    if s[p] == ']' {
      return ArrayClosed(p + 1);
    }
    r := LoadItem(s, if s[p] == ',' then p + 1 else p);
  }

  method LoadItem(s: string, q: nat) returns (r: ArrayStep)
    requires q <= |s|
    ensures r == ItemAt(s, q)
    decreases |s| - q, 1
  {
    var item := LoadNode(s, q);
    match item {
      case Fail(f) =>
        r := ArrayFailed(f);
      case Ok((n, next)) =>
        r := Item(n, next);
    }
  }

  method LoadDict(s: string, pos: nat) returns (r: Result<(Node, nat)>)
    requires pos <= |s|
    ensures r == ParseDict(s, pos, map[])
    decreases |s| - pos, 2
  {
    var result: map<string, Node> := map[];
    var p := pos;
    while true
      invariant pos <= p <= |s|
      invariant ParseDict(s, p, result) == ParseDict(s, pos, map[])
      decreases |s| - p
    {
      var step := ReadDictStep(s, p, result);
      match step {
        case DictClosed(end) =>
          return Ok((Dict(result), end));
        case DictFailed(f) =>
          return Fail(f);
        case Entry(key, n, next) =>
          result := result[key := n];
          p := next;
        case Comma(next) =>
          p := next;
      }
    }
  }

  /** The body of LoadDict's loop: skip spaces, then stop at '}', skip a comma, or load one entry. */
  method ReadDictStep(s: string, pos: nat, result: map<string, Node>) returns (r: DictStep)
    requires pos <= |s|
    ensures r == StepDict(s, pos, result)
    decreases |s| - pos, 1
  {
    var p := SkipSpace(s, pos);
    if p == |s| {
      return DictFailed(ParsingError);
    }
    if s[p] == '}' {
      return DictClosed(p + 1);
    }
    if s[p] == ',' {
      return Comma(p + 1);
    }
    if s[p] != '"' {
      return DictFailed(ParsingError);
    }
    r := ReadEntry(s, pos, p, result);
  }

  /** The rest of one pass of LoadDict's loop, once a quote opens a key at p. */
  method ReadEntry(s: string, pos: nat, p: nat, result: map<string, Node>) returns (r: DictStep)
    requires pos <= p < |s| && p == SkipSpace(s, pos) && s[p] == '"'
    ensures r == StepDict(s, pos, result)
    decreases |s| - pos, 0
  {
    var str := LoadString(s, p + 1);
    match str {
      case Fail(f) =>
        return DictFailed(f);
      case Ok((key, q)) =>
        var colon := SkipSpace(s, q);
        if colon == |s| || s[colon] != ':' {
          return DictFailed(ParsingError);
        }
        if key in result {
          return DictFailed(ParsingError);
        }
        r := LoadEntryValue(s, colon, key);
    }
  }

  method LoadEntryValue(s: string, c: nat, key: string) returns (r: DictStep)
    requires c < |s|
    ensures r == EntryValue(s, c, key)
    decreases |s| - c, 0
  {
    var item := LoadNode(s, c + 1);
    match item {
      case Fail(f) =>
        r := DictFailed(f);
      case Ok((n, next)) =>
        r := Entry(key, n, next);
    }
  }

  // ---------------------------------------------------------------------------
  // Properties of LoadArray and LoadDict.

  /** Wherever PrintString's output stands in the input, LoadNode reads it back as that string. */
  lemma QuotedLoadsAt(s: string, pos: nat, v: string)
    requires At(s, pos, Quoted(v))
    ensures ParseNode(s, pos) == Ok((String(v), pos + |Quoted(v)|))
  {
    assert s[pos] == Quoted(v)[0] == '"';
    assert SkipSpace(s, pos) == pos;
    AtConcat(s, pos, "\"" + Escaped(v), "\"");
    AtConcat(s, pos, "\"", Escaped(v));
    EscapedReadsBack(s, pos + 1, v, "");
    assert "" + v == v;
  }

  /** The items after the first of an array of strings, as PrintNode writes them: each preceded by a comma. */
  function CommaItems(vs: seq<string>): string {
    if vs == [] then "" else "," + Quoted(vs[0]) + CommaItems(vs[1..])
  }

  /** The text of an array of strings: the quoted strings between brackets, separated by commas. */
  function ArrayText(vs: seq<string>): string {
    "[" + (if vs == [] then "" else Quoted(vs[0]) + CommaItems(vs[1..])) + "]"
  }

  function Strings(vs: seq<string>): (r: seq<Node>)
    ensures |r| == |vs| && forall k :: 0 <= k < |vs| ==> r[k] == String(vs[k])
  {
    if vs == [] then [] else [String(vs[0])] + Strings(vs[1..])
  }

  /** A comma, then a quoted string, is one item of LoadArray's loop. */
  lemma CommaItemStep(s: string, pos: nat, v: string)
    requires At(s, pos, ",") && At(s, pos + 1, Quoted(v))
    ensures StepArray(s, pos) == Item(String(v), pos + 1 + |Quoted(v)|)
  {
    assert s[pos] == ',';
    assert SkipSpace(s, pos) == pos;
    QuotedLoadsAt(s, pos + 1, v);
  }

  /** The closing bracket ends LoadArray's loop with the items read so far. */
  lemma ArrayCloses(s: string, pos: nat, items: seq<Node>)
    requires At(s, pos, "]")
    ensures ParseArray(s, pos, items) == Ok((Array(items), pos + 1))
  {
    assert s[pos] == ']';
    assert SkipSpace(s, pos) == pos;
  }

  /** After an item, LoadArray's loop goes on with that item appended. */
  lemma ArrayStepsOn(s: string, pos: nat, items: seq<Node>, n: Node, next: nat)
    requires pos <= |s| && StepArray(s, pos) == Item(n, next)
    ensures ParseArray(s, pos, items) == ParseArray(s, next, items + [n])
  {
  }

  /** Where comma-separated strings stand, so do the comma, the first string and the rest. */
  lemma CommaItemsSplit(s: string, pos: nat, vs: seq<string>)
    requires vs != [] && At(s, pos, CommaItems(vs) + "]")
    ensures At(s, pos, ",") && At(s, pos + 1, Quoted(vs[0]))
    ensures At(s, pos + 1 + |Quoted(vs[0])|, CommaItems(vs[1..]) + "]")
    ensures |CommaItems(vs)| == 1 + |Quoted(vs[0])| + |CommaItems(vs[1..])|
  {
    assert CommaItems(vs) + "]" == "," + (Quoted(vs[0]) + (CommaItems(vs[1..]) + "]"));
    AtConcat(s, pos, ",", Quoted(vs[0]) + (CommaItems(vs[1..]) + "]"));
    AtConcat(s, pos + 1, Quoted(vs[0]), CommaItems(vs[1..]) + "]");
  }

  lemma AppendStrings(items: seq<Node>, vs: seq<string>)
    requires vs != []
    ensures items + [String(vs[0])] + Strings(vs[1..]) == items + Strings(vs)
  {
    assert Strings(vs) == [String(vs[0])] + Strings(vs[1..]);
  }

  /** One comma-separated string read by LoadArray's loop: the loop goes on after it with the string appended. */
  lemma CommaItemReadOn(s: string, pos: nat, vs: seq<string>, items: seq<Node>)
    requires vs != [] && At(s, pos, CommaItems(vs) + "]")
    ensures ParseArray(s, pos, items) == ParseArray(s, pos + 1 + |Quoted(vs[0])|, items + [String(vs[0])])
    ensures At(s, pos + 1 + |Quoted(vs[0])|, CommaItems(vs[1..]) + "]")
    ensures |CommaItems(vs)| == 1 + |Quoted(vs[0])| + |CommaItems(vs[1..])|
  {
    CommaItemsSplit(s, pos, vs);
    CommaItemStep(s, pos, vs[0]);
    ArrayStepsOn(s, pos, items, String(vs[0]), pos + 1 + |Quoted(vs[0])|);
  }

  /** The loop of LoadArray reads comma-separated strings up to ']' back, appending them in order. */
  lemma {:induction false} CommaItemsReadBack(s: string, pos: nat, vs: seq<string>, items: seq<Node>)
    requires At(s, pos, CommaItems(vs) + "]")
    ensures ParseArray(s, pos, items) == Ok((Array(items + Strings(vs)), pos + |CommaItems(vs)| + 1))
    decreases |vs|
  {
    if vs == [] {
      assert CommaItems(vs) + "]" == "]";
      ArrayCloses(s, pos, items);
      assert items + Strings(vs) == items;
    } else {
      CommaItemReadOn(s, pos, vs, items);
      CommaItemsReadBack(s, pos + 1 + |Quoted(vs[0])|, vs[1..], items + [String(vs[0])]);
      AppendStrings(items, vs);
    }
  }

  /** The first item of an array, a quoted string, read by LoadArray's loop. */
  lemma FirstItemStep(s: string, pos: nat, v: string)
    requires At(s, pos, Quoted(v))
    ensures StepArray(s, pos) == Item(String(v), pos + |Quoted(v)|)
  {
    assert s[pos] == Quoted(v)[0] == '"';
    assert SkipSpace(s, pos) == pos;
    QuotedLoadsAt(s, pos, v);
  }

  /** LoadNode reads the text of an array of strings as LoadArray's loop from just after '['. */
  lemma ArrayTextStarts(s: string, vs: seq<string>, rest: string)
    requires s == ArrayText(vs) + rest
    ensures ParseNode(s, 0) == ParseArray(s, 1, [])
    ensures vs == [] ==> At(s, 1, "]")
    ensures vs != [] ==> At(s, 1, Quoted(vs[0])) && At(s, 1 + |Quoted(vs[0])|, CommaItems(vs[1..]) + "]")
    ensures |ArrayText(vs)| == if vs == [] then 2 else 1 + |Quoted(vs[0])| + |CommaItems(vs[1..])| + 1
  {
    assert s[0] == '[';
    assert SkipSpace(s, 0) == 0;
    AtSlice(s, 0, ArrayText(vs));
    if vs == [] {
      assert ArrayText(vs) == "[" + "]";
      AtConcat(s, 0, "[", "]");
    } else {
      var body := Quoted(vs[0]) + (CommaItems(vs[1..]) + "]");
      assert ArrayText(vs) == "[" + body;
      AtConcat(s, 0, "[", body);
      AtConcat(s, 1, Quoted(vs[0]), CommaItems(vs[1..]) + "]");
    }
  }

  /** From just after '[', LoadArray's loop reads a non-empty list of strings back in order. */
  lemma ItemsReadBack(s: string, vs: seq<string>)
    requires vs != [] && At(s, 1, Quoted(vs[0])) && At(s, 1 + |Quoted(vs[0])|, CommaItems(vs[1..]) + "]")
    ensures ParseArray(s, 1, []) == Ok((Array(Strings(vs)), 1 + |Quoted(vs[0])| + |CommaItems(vs[1..])| + 1))
  {
    var x := String(vs[0]);
    var next := 1 + |Quoted(vs[0])|;
    FirstItemStep(s, 1, vs[0]);
    ArrayStepsOn(s, 1, [], x, next);
    assert [] + [x] == [x];
    CommaItemsReadBack(s, next, vs[1..], [x]);
    assert [x] + Strings(vs[1..]) == Strings(vs);
  }

  /**
   * An array of strings loads back as those strings, in the order they
   * were written, whatever text follows it.
   */
  lemma ArrayItemsInOrder(vs: seq<string>, rest: string)
    ensures ParseNode(ArrayText(vs) + rest, 0) == Ok((Array(Strings(vs)), |ArrayText(vs)|))
  {
    var s := ArrayText(vs) + rest;
    ArrayTextStarts(s, vs, rest);
    if vs == [] {
      ArrayCloses(s, 1, []);
      assert Strings(vs) == [];
    } else {
      ItemsReadBack(s, vs);
    }
  }

  /** Input that ends before the closing ']' throws: no ']' ahead means LoadArray cannot finish. */
  lemma {:induction false} ArrayUnclosedFails(s: string, pos: nat, items: seq<Node>)
    requires pos <= |s| && ']' !in s[pos..]
    ensures ParseArray(s, pos, items).Fail?
    decreases |s| - pos
  {
    var p := SkipSpace(s, pos);
    match StepArray(s, pos)
    case ArrayClosed(end) =>
      assert false;
    case Item(n, next) =>
      assert s[next..] == s[pos..][next - pos..];
      ArrayUnclosedFails(s, next, items + [n]);
    case ArrayFailed(f) =>
  }

  /** Input that ends before the closing '}' throws: no '}' ahead means LoadDict cannot finish. */
  lemma {:induction false} DictUnclosedFails(s: string, pos: nat, entries: map<string, Node>)
    requires pos <= |s| && '}' !in s[pos..]
    ensures ParseDict(s, pos, entries).Fail?
    decreases |s| - pos
  {
    var p := SkipSpace(s, pos);
    match StepDict(s, pos, entries)
    case DictClosed(end) =>
      assert false;
    case Entry(key, n, next) =>
      assert s[next..] == s[pos..][next - pos..];
      DictUnclosedFails(s, next, entries[key := n]);
    case Comma(next) =>
      assert s[next..] == s[pos..][next - pos..];
      DictUnclosedFails(s, next, entries);
    case DictFailed(f) =>
  }

  /** A key LoadDict has already read, followed by ':', throws ParsingError. */
  lemma DictDuplicateKeyFails(key: string, rest: string, entries: map<string, Node>)
    requires key in entries
    ensures ParseDict(Quoted(key) + ":" + rest, 0, entries) == Fail(ParsingError)
  {
    var s := Quoted(key) + ":" + rest;
    KeyReads(s, key);
    assert s[|Quoted(key)|] == ':';
    assert SkipSpace(s, |Quoted(key)|) == |Quoted(key)|;
  }

  /** A key followed by anything but ':' (or by the end of the input) throws ParsingError. */
  lemma DictMissingColonFails(key: string, after: string, entries: map<string, Node>)
    requires after == [] || (!IsSpace(after[0]) && after[0] != ':')
    ensures ParseDict(Quoted(key) + after, 0, entries) == Fail(ParsingError)
  {
    var s := Quoted(key) + after;
    KeyReads(s, key);
    if after != [] {
      assert s[|Quoted(key)|] == after[0];
    }
    assert SkipSpace(s, |Quoted(key)|) == |Quoted(key)|;
  }

  /** Where a key may start, a character other than a quote, ',' or '}' throws ParsingError. */
  lemma DictBadSeparatorFails(c: char, rest: string, entries: map<string, Node>)
    requires !IsSpace(c) && c != '"' && c != ',' && c != '}'
    ensures ParseDict([c] + rest, 0, entries) == Fail(ParsingError)
  {
    assert ([c] + rest)[0] == c;
    assert SkipSpace([c] + rest, 0) == 0;
  }

  /** A quoted key at the start of s is read by LoadString. */
  lemma KeyReads(s: string, key: string)
    requires |Quoted(key)| <= |s| && s[..|Quoted(key)|] == Quoted(key)
    ensures s[0] == '"' && SkipSpace(s, 0) == 0
    ensures ParseString(s, 1, "") == Ok((key, |Quoted(key)|))
  {
    AtSlice(s, 0, Quoted(key));
    QuotedLoadsAt(s, 0, key);
    assert s[0] == Quoted(key)[0];
  }

  /** Load: the document's root is the first node of the input; what follows it is not read. */
  method Load(s: string) returns (r: Result<Node>)
    ensures r.Ok? <==> ParseNode(s, 0).Ok?
    ensures r.Ok? ==> r.value == ParseNode(s, 0).value.0
  {
    var n := LoadNode(s, 0);
    match n {
      case Fail(f) =>
        r := Fail(f);
      case Ok((root, _)) =>
        r := Ok(root);
    }
  }
}
