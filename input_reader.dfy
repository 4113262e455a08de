/**
 * The reader of the line-oriented text format: a line holding the number of
 * requests, then lines such as
 *   "Stop Tolstopaltsevo: 55.611087, 37.20829, 3900m to Marushkino"
 *   "Bus 256: Biryulyovo Zapadnoye > Biryusinka > Biryulyovo Zapadnoye"
 *   "Bus 750: Tolstopaltsevo - Marushkino - Rasskazovka"
 * std::string_view::find and substr and std::stoi are modelled exactly:
 * find yields npos when the character is absent, positions are size_t and
 * wrap modulo 2^64, and substr throws std::out_of_range when the position
 * lies past the end; a thrown exception is a None result.
 */
module InputReader {
  import opened Common
  import opened Catalogue

  /** std::string::npos, the largest size_t. */
  const NPos: nat := SizeTModulus - 1

  /** Where the name starts in "Stop <name>: ..." and in "Bus <name>: ...". */
  const StopNamePos: nat := 5
  const BusNamePos: nat := 4

  const IntMin: int := -0x8000_0000
  const IntMax: int := 0x7FFF_FFFF

  // ---------------------------------------------------------------------------
  // string_view operations

  /** The first position of c at or after `from`. */
  function FindFrom(s: string, c: char, from: nat): (r: Option<nat>)
    ensures r.Some? ==> from <= r.value < |s| && s[r.value] == c
    decreases |s| - from
  {
    if from >= |s| then None
    else if s[from] == c then Some(from)
    else FindFrom(s, c, from + 1)
  }

  lemma {:induction false} FindFromFirst(s: string, c: char, from: nat)
    ensures FindFrom(s, c, from).Some? ==> forall k :: from <= k < FindFrom(s, c, from).value ==> s[k] != c
    ensures FindFrom(s, c, from).None? ==> forall k :: from <= k < |s| ==> s[k] != c
    decreases |s| - from
  {
    if from < |s| && s[from] != c {
      FindFromFirst(s, c, from + 1);
    }
  }

  /** find(c): the first position of c, or None for npos. */
  function Find(s: string, c: char): (r: Option<nat>)
    ensures r.Some? ==> r.value < |s| && s[r.value] == c
  {
    FindFrom(s, c, 0)
  }

  /** find reports the first c, and npos exactly when there is none. */
  lemma FindFirst(s: string, c: char)
    ensures Find(s, c).Some? ==> forall k :: 0 <= k < Find(s, c).value ==> s[k] != c
    ensures Find(s, c).None? <==> c !in s
  {
    FindFromFirst(s, c, 0);
  }

  /** A find result as the size_t the program computes with. */
  function Pos(found: Option<nat>): (r: nat)
    requires found.Some? ==> found.value <= NPos
    ensures r <= NPos
  {
    if found.None? then NPos else found.value
  }

  /** size_t arithmetic on a position: a result below 0 or past the largest size_t wraps around once. */
  function Wrap(d: int): (r: nat)
    requires -2 * SizeTModulus <= d < 2 * SizeTModulus
    ensures r < SizeTModulus
  {
    if d < -SizeTModulus then d + 2 * SizeTModulus
    else if d < 0 then d + SizeTModulus
    else if d < SizeTModulus then d
    else d - SizeTModulus
  }

  function Min(a: nat, b: nat): nat {
    if a <= b then a else b
  }

  /** substr(pos, count): out_of_range past the end; the count is clipped to what is left. */
  function Substr(s: string, pos: nat, count: nat): (r: Option<string>)
    ensures r.None? <==> pos > |s|
    ensures r.Some? ==> r.value == s[pos..pos + Min(count, |s| - pos)]
  {
    if pos > |s| then None else Some(s[pos..pos + Min(count, |s| - pos)])
  }

  /** substr(0, count), which never throws. */
  function Prefix(s: string, count: nat): (r: string)
    ensures r == s[..Min(count, |s|)]
  {
    Substr(s, 0, count).value
  }

  /** The first c at position i is what find reports. */
  lemma FindAt(s: string, c: char, i: nat)
    requires i < |s| && s[i] == c && forall k :: 0 <= k < i ==> s[k] != c
    ensures Find(s, c) == Some(i)
  {
    FindFirst(s, c);
  }

  /** Searching past a stretch free of c finds the first c of what follows. */
  lemma FindAfter(a: string, b: string, c: char)
    requires c !in a
    ensures Find(a + b, c) == if Find(b, c).None? then None else Some(|a| + Find(b, c).value)
  {
    var s := a + b;
    var q := Find(b, c);
    FindFirst(b, c);
    assert forall k :: 0 <= k < |a| ==> s[k] == a[k] != c;
    assert forall k :: |a| <= k < |s| ==> s[k] == b[k - |a|];
    if q.Some? {
      FindAt(s, c, |a| + q.value);
    } else {
      FindFirst(s, c);
      assert c !in s;
    }
  }

  /** A c inside the first part is found there. */
  lemma FindBefore(a: string, b: string, c: char)
    requires Find(a, c).Some?
    ensures Find(a + b, c) == Find(a, c)
  {
    var q := Find(a, c);
    FindFirst(a, c);
    assert (a + b)[q.value] == c;
    assert forall k :: 0 <= k < |a| ==> (a + b)[k] == a[k];
    FindAt(a + b, c, q.value);
  }

  // ---------------------------------------------------------------------------
  // std::stoi: leading white space, an optional sign, then decimal digits; no
  // digit is std::invalid_argument and a value outside int is std::out_of_range.

  predicate IsSpace(c: char) {
    c == ' ' || c == '\t' || c == '\n' || c == '\U{000B}' || c == '\U{000C}' || c == '\r'
  }

  predicate IsDigit(c: char) {
    '0' <= c <= '9'
  }

  predicate AllDigits(s: string) {
    forall k :: 0 <= k < |s| ==> IsDigit(s[k])
  }

  function SkipSpaces(s: string): (r: string)
    ensures |r| <= |s| && r == s[|s| - |r|..]
    ensures r != [] ==> !IsSpace(r[0])
  {
    if s != [] && IsSpace(s[0]) then SkipSpaces(s[1..]) else s
  }

  /** Length of the run of digits s starts with. */
  function LeadingDigits(s: string): (r: nat)
    ensures r <= |s| && AllDigits(s[..r]) && (r < |s| ==> !IsDigit(s[r]))
  {
    if s != [] && IsDigit(s[0]) then
      var r := LeadingDigits(s[1..]) + 1;
      assert forall k :: 1 <= k < r ==> s[..r][k] == s[1..][..r - 1][k - 1];
      r
    else 0
  }

  function DigitsValue(s: string): nat
    requires AllDigits(s)
  {
    if s == [] then 0 else DigitsValue(s[..|s| - 1]) * 10 + (s[|s| - 1] as int - '0' as int)
  }

  function Stoi(s: string): (r: Option<int>)
    ensures r.Some? ==> IntMin <= r.value <= IntMax
    ensures r.Some? ==> exists k :: 0 <= k < |s| && IsDigit(s[k])
  {
    var t := SkipSpaces(s);
    if t != [] && (t[0] == '-' || t[0] == '+') then
      var r := StoiDigits(t[1..], t[0] == '-');
      assert r.Some? ==> IsDigit(s[|s| - |t| + 1]) by { if r.Some? { assert t[1..][0] == s[|s| - |t| + 1]; } }
      r
    else
      var r := StoiDigits(t, false);
      assert r.Some? ==> IsDigit(s[|s| - |t|]);
      r
  }

  /** The value of the digits u starts with, negated when a '-' preceded them. */
  function StoiDigits(u: string, negative: bool): (r: Option<int>)
    ensures r.Some? ==> IntMin <= r.value <= IntMax && u != [] && IsDigit(u[0])
  {
    var n := LeadingDigits(u);
    if n == 0 then None
    else
      assert u[..n][0] == u[0];
      var magnitude := DigitsValue(u[..n]);
      var v: int := if negative then -(magnitude as int) else magnitude;
      if IntMin <= v <= IntMax then Some(v) else None
  }

  /** The decimal digits of n, as a distance is written in the input. */
  function Decimal(n: nat): (r: string)
    ensures |r| >= 1 && AllDigits(r)
  {
    var last := ('0' as int + n % 10) as char;
    if n < 10 then [last] else Decimal(n / 10) + [last]
  }

  lemma {:induction false} DecimalValue(n: nat)
    ensures DigitsValue(Decimal(n)) == n
  {
    if n >= 10 {
      DecimalValue(n / 10);
      var d := Decimal(n);
      assert d[..|d| - 1] == Decimal(n / 10);
    }
  }

  lemma {:induction false} LeadingDigitsAppend(a: string, b: string)
    requires AllDigits(a)
    ensures LeadingDigits(a + b) == |a| + LeadingDigits(b)
  {
    if a != [] {
      assert (a + b)[1..] == a[1..] + b;
      LeadingDigitsAppend(a[1..], b);
    } else {
      assert a + b == b;
    }
  }

  /** stoi reads back a written distance and stops at the first non-digit. */
  lemma StoiDecimal(n: nat, rest: string)
    requires n <= IntMax && (rest == [] || !IsDigit(rest[0]))
    ensures Stoi(Decimal(n) + rest) == Some(n)
  {
    DecimalValue(n);
    StoiDigitRun(Decimal(n), rest, n);
  }

  /** stoi of a run of digits followed by a non-digit is the run's value. */
  lemma StoiDigitRun(d: string, rest: string, n: nat)
    requires d != [] && AllDigits(d) && DigitsValue(d) == n && n <= IntMax
    requires rest == [] || !IsDigit(rest[0])
    ensures Stoi(d + rest) == Some(n)
  {
    StoiUnsigned(d + rest);
    DigitRunValue(d, rest);
  }

  /** A text starting with a digit is read without skipping or a sign. */
  lemma StoiUnsigned(s: string)
    requires s != [] && IsDigit(s[0])
    ensures Stoi(s) == StoiDigits(s, false)
  {
    assert SkipSpaces(s) == s;
  }

  lemma DigitRunValue(d: string, rest: string)
    requires d != [] && AllDigits(d) && DigitsValue(d) <= IntMax
    requires rest == [] || !IsDigit(rest[0])
    ensures StoiDigits(d + rest, false) == Some(DigitsValue(d))
  {
    var s := d + rest;
    LeadingDigitsAppend(d, rest);
    assert LeadingDigits(rest) == 0;
    assert s[..|d|] == d;
  }

  // ---------------------------------------------------------------------------
  // GetStopQuery

  /**
   * The three fields GetStopQuery cuts out of a stop line, given the
   * positions find reported for the first ':' and the first ',': the name
   * from position 5 to the colon, the latitude from two past the colon to
   * the comma, the longitude from two past the comma to the end.
   */
  function StopFieldsAt(query: string, colon: nat, comma: nat): (r: Option<(string, string, string)>)
    requires colon <= NPos && comma <= NPos
    ensures r.Some? <==> |query| >= StopNamePos && Wrap(colon + 2) <= |query| && Wrap(comma + 2) <= |query|
  {
    match Substr(query, StopNamePos, Wrap(colon - StopNamePos))
    case None => None
    case Some(name) =>
      match Substr(query, Wrap(colon + 2), Wrap(comma - colon - 2))
      case None => None
      case Some(latitude) =>
        match Substr(query, Wrap(comma + 2), NPos)
        case None => None
        case Some(longitude) => Some((name, latitude, longitude))
  }

  function StopFields(query: string): (r: Option<(string, string, string)>)
    requires |query| <= NPos
  {
    StopFieldsAt(query, Pos(Find(query, ':')), Pos(Find(query, ',')))
  }

  /** GetStopQuery; `parseDouble` stands for std::stod (None: it throws). */
  function GetStopQuery(query: string, parseDouble: string -> Option<real>): (r: Option<Stop>)
    requires |query| <= NPos
    ensures r.Some? <==> StopFields(query).Some? && parseDouble(StopFields(query).value.1).Some? &&
                         parseDouble(StopFields(query).value.2).Some?
    ensures r.Some? ==> r.value.name == StopFields(query).value.0 && r.value.buses == []
  {
    match StopFields(query)
    case None => None
    case Some((name, latitude, longitude)) =>
      match (parseDouble(latitude), parseDouble(longitude))
      case (Some(lat), Some(lng)) => Some(Stop(name, Coordinates(lat, lng), []))
      case _ => None
  }

  /** The line a stop is written as, without its distance list. */
  function StopLine(name: string, latitude: string, longitude: string): string {
    "Stop " + name + ": " + latitude + ", " + longitude
  }

  /** The fields of a line whose colon and comma leave room for both coordinates. */
  lemma StopFieldsBetween(query: string, colon: nat, comma: nat)
    requires StopNamePos <= colon && colon + 2 <= comma && comma + 2 <= |query| < NPos
    ensures StopFieldsAt(query, colon, comma) == Some((query[StopNamePos..colon], query[colon + 2..comma], query[comma + 2..]))
  {
    assert Min(NPos, |query| - (comma + 2)) == |query| - (comma + 2);
    assert query[comma + 2..|query|] == query[comma + 2..];
  }

  /** Where the separators of a written stop line are. */
  lemma StopLineSeparators(name: string, latitude: string, longitude: string)
    requires ':' !in name && ',' !in name && ',' !in latitude
    ensures var line := StopLine(name, latitude, longitude);
            var colon := StopNamePos + |name|;
            var comma := colon + 2 + |latitude|;
            && Find(line, ':') == Some(colon) && Find(line, ',') == Some(comma)
            && line[StopNamePos..colon] == name && line[colon + 2..comma] == latitude && line[comma + 2..] == longitude
  {
    var p1 := "Stop " + name;
    var p2 := p1 + ": ";
    var p3 := p2 + latitude;
    var p4 := p3 + ", ";
    assert ':' !in p1 && ',' !in p1;
    FindAfter(p1, ": ", ':');
    FindBefore(p2, latitude, ':');
    FindBefore(p3, ", ", ':');
    FindBefore(p4, longitude, ':');
    assert ',' !in p3;
    FindAfter(p3, ", ", ',');
    FindBefore(p4, longitude, ',');
  }

  /**
   * A written stop line reads back as its name and its two coordinates, as
   * long as the name holds neither ':' nor ',' and the latitude holds no ','.
   */
  lemma StopLineRoundTrip(name: string, latitude: string, longitude: string, parseDouble: string -> Option<real>)
    requires ':' !in name && ',' !in name && ',' !in latitude
    requires |StopLine(name, latitude, longitude)| < NPos
    ensures var r := GetStopQuery(StopLine(name, latitude, longitude), parseDouble);
            r.Some? <==> parseDouble(latitude).Some? && parseDouble(longitude).Some?
    ensures var r := GetStopQuery(StopLine(name, latitude, longitude), parseDouble);
            r.Some? ==> r.value == Stop(name, Coordinates(parseDouble(latitude).value, parseDouble(longitude).value), [])
  {
    StopLineSeparators(name, latitude, longitude);
    StopFieldsBetween(StopLine(name, latitude, longitude), StopNamePos + |name|, StopNamePos + |name| + 2 + |latitude|);
  }

  // ---------------------------------------------------------------------------
  // GetBusQuery

  /**
   * The stop names of a route text, as GetBusQuery's loops cut it at every
   * `sep`: a piece ends one character before the separator, the rest starts
   * two after it (std::out_of_range when the separator is the last character),
   * and the last piece is the whole remainder.
   */
  function Pieces(route: string, sep: char): (r: Option<seq<string>>)
    requires |route| <= NPos
    ensures r.Some? ==> |r.value| >= 1
    decreases |route|
  {
    match Find(route, sep)
    case None => Some([Prefix(route, NPos - 1)])
    case Some(d) =>
      if d + 2 > |route| then None
      else match Pieces(route[d + 2..], sep) {
        case None => None
        case Some(rest) => Some([Prefix(route, Wrap(d - 1))] + rest)
      }
  }

  /**
   * The stop names of a route: with no '>' it is cut at '-' and run out and
   * back, otherwise it is cut at '>' and kept as listed.
   */
  function RouteStops(route: string): (r: Option<seq<string>>)
    requires |route| <= NPos
    ensures r.Some? ==> |r.value| >= 1
  {
    if Find(route, '>').None? then
      match Pieces(route, '-') {
        case None => None
        case Some(names) => Some(OutAndBack(names))
      }
    else Pieces(route, '>')
  }

  /**
   * GetBusQuery on names, given the position find reported for the first
   * ':': the bus name runs from position 4 to the colon, the route from two
   * past the colon to the end.
   */
  function BusRouteAt(query: string, colon: nat): (r: Option<(string, seq<string>)>)
    requires |query| <= NPos
    requires colon <= NPos
    ensures r.Some? ==> |query| >= BusNamePos && |r.value.1| >= 1
  {
    match Substr(query, BusNamePos, Wrap(colon - BusNamePos))
    case None => None
    case Some(name) =>
      match Substr(query, Wrap(colon + 2), NPos)
      case None => None
      case Some(route) =>
        match RouteStops(route) {
          case None => None
          case Some(stops) => Some((name, stops))
        }
  }

  function BusRoute(query: string): (r: Option<(string, seq<string>)>)
    requires |query| <= NPos
  {
    BusRouteAt(query, Pos(Find(query, ':')))
  }

  /** The name and route of a line whose colon leaves room for the route. */
  lemma BusRouteBetween(query: string, colon: nat)
    requires BusNamePos <= colon && colon + 2 <= |query| < NPos
    ensures BusRouteAt(query, colon) ==
              if RouteStops(query[colon + 2..]).None? then None
              else Some((query[BusNamePos..colon], RouteStops(query[colon + 2..]).value))
  {
    assert Min(NPos, |query| - (colon + 2)) == |query| - (colon + 2);
    assert query[colon + 2..|query|] == query[colon + 2..];
  }

  /** Stop names written one after another with " - " or " > " between them. */
  function Join(names: seq<string>, sep: char): (r: string)
    requires |names| >= 1
    ensures |r| >= |names[0]|
  {
    if |names| == 1 then names[0] else names[0] + [' ', sep, ' '] + Join(names[1..], sep)
  }

  predicate FreeOf(names: seq<string>, c: char) {
    forall k :: 0 <= k < |names| ==> c !in names[k]
  }

  lemma {:induction false} JoinFreeOf(names: seq<string>, sep: char, c: char)
    requires |names| >= 1 && FreeOf(names, c) && c != sep && c != ' '
    ensures c !in Join(names, sep)
  {
    if |names| > 1 {
      JoinFreeOf(names[1..], sep, c);
    }
  }

  lemma {:induction false} JoinHasSep(names: seq<string>, sep: char)
    requires |names| >= 2
    ensures sep in Join(names, sep)
  {
    assert Join(names, sep)[|names[0]| + 1] == sep;
  }

  /** Cutting names joined with a separator none of them holds gives the names back. */
  lemma {:induction false} PiecesOfJoin(names: seq<string>, sep: char)
    requires |names| >= 1 && FreeOf(names, sep) && sep != ' ' && |Join(names, sep)| < NPos
    ensures Pieces(Join(names, sep), sep) == Some(names)
  {
    var text := Join(names, sep);
    if |names| == 1 {
      assert text == names[0];
      assert Find(text, sep).None?;
      assert Prefix(text, NPos - 1) == text;
      assert names == [names[0]];
    } else {
      var head := names[0] + [' '];
      var rest := Join(names[1..], sep);
      assert text == head + ([sep, ' '] + rest);
      FindAfter(head, [sep, ' '] + rest, sep);
      assert Find(text, sep) == Some(|names[0]| + 1);
      assert text[|names[0]| + 3..] == rest;
      assert Prefix(text, |names[0]|) == names[0];
      PiecesOfJoin(names[1..], sep);
      assert [names[0]] + names[1..] == names;
    }
  }

  /** The line a bus is written as: a roundtrip bus with " > ", any other with " - ". */
  function BusLine(name: string, stops: seq<string>, isRoundtrip: bool): string
    requires |stops| >= 1
  {
    "Bus " + name + ": " + Join(stops, if isRoundtrip then '>' else '-')
  }

  /** A route written with " > " is kept as listed, one written with " - " runs out and back. */
  lemma RouteStopsOfJoin(stops: seq<string>, isRoundtrip: bool)
    requires |stops| >= 1 && FreeOf(stops, '-') && FreeOf(stops, '>')
    requires |Join(stops, if isRoundtrip then '>' else '-')| < NPos
    ensures RouteStops(Join(stops, if isRoundtrip then '>' else '-')) == Some(if isRoundtrip then stops else OutAndBack(stops))
  {
    if isRoundtrip {
      PiecesOfJoin(stops, '>');
      if |stops| >= 2 {
        JoinHasSep(stops, '>');
      } else {
        assert Join(stops, '>') == stops[0];
        assert Find(stops[0], '>').None?;
        PiecesOfJoin(stops, '-');
        assert OutAndBack(stops) == stops;
      }
    } else {
      PiecesOfJoin(stops, '-');
      JoinFreeOf(stops, '-', '>');
    }
  }

  /** Where the name and the route of a written bus line are. */
  lemma BusLineSeparators(name: string, route: string)
    requires ':' !in name
    ensures var line := "Bus " + name + ": " + route;
            && Find(line, ':') == Some(BusNamePos + |name|)
            && line[BusNamePos..BusNamePos + |name|] == name && line[BusNamePos + |name| + 2..] == route
  {
    var head := "Bus " + name;
    var line := head + ": " + route;
    assert line == head + (": " + route);
    assert ':' !in head;
    FindAfter(head, ": " + route, ':');
    FindAt(": " + route, ':', 0);
  }

  /**
   * A written bus line reads back as its name and its stops; the stops of a
   * line written with " - " come back out and back, 2n - 1 of them.
   */
  lemma BusLineRoundTrip(name: string, stops: seq<string>, isRoundtrip: bool)
    requires |stops| >= 1 && ':' !in name && FreeOf(stops, '-') && FreeOf(stops, '>')
    requires |BusLine(name, stops, isRoundtrip)| < NPos
    ensures BusRoute(BusLine(name, stops, isRoundtrip)) == Some((name, if isRoundtrip then stops else OutAndBack(stops)))
  {
    var route := Join(stops, if isRoundtrip then '>' else '-');
    var line := BusLine(name, stops, isRoundtrip);
    BusLineSeparators(name, route);
    BusRouteBetween(line, BusNamePos + |name|);
    RouteStopsOfJoin(stops, isRoundtrip);
  }

  /** Prepends what a loop has already cut off to what the rest of the text gives. */
  function Then<T>(done: seq<T>, rest: Option<seq<T>>): Option<seq<T>> {
    if rest.None? then None else Some(done + rest.value)
  }

  /** One pass of the route loop: the piece before the separator and what the text two past it gives. */
  lemma PiecesStep(query: string, sep: char, next: string, names: seq<string>)
    requires |query| <= NPos && Find(query, sep).Some?
    requires Substr(query, Find(query, sep).value + 2, NPos) == Some(next)
    ensures Then(names, Pieces(query, sep)) ==
            Then(names + [Prefix(query, Wrap(Find(query, sep).value - 1))], Pieces(next, sep))
  {
    var d: int := Find(query, sep).value;
    SubstrFrom(query, d + 2, next);
    ThenThen(names, [Prefix(query, Wrap(d - 1))], Pieces(next, sep));
  }

  /**
   * The loop of GetBusQuery that cuts a route at every `sep` and looks each
   * stop name up in the catalogue (a null pointer for an unknown name).
   */
  method SplitRoute(catalogue: TransportCatalogue, route: string, sep: char) returns (stops: Option<seq<StopRef>>)
    requires catalogue.Valid() && |route| <= NPos
    ensures stops.None? <==> Pieces(route, sep).None?
    ensures stops.Some? ==> LookedUp(catalogue, Pieces(route, sep).value, stops.value)
  {
    var query := route;
    var found := Find(query, sep);
    var result: seq<StopRef> := [];
    ghost var names: seq<string> := [];
    ThenNothing(Pieces(route, sep));
    while found.Some?
      invariant |query| <= |route| && found == Find(query, sep)
      invariant Pieces(route, sep) == Then(names, Pieces(query, sep))
      invariant LookedUp(catalogue, names, result)
      decreases |query|
    {
      var piece := Prefix(query, Wrap(found.value - 1));
      result := result + [catalogue.GetStop(piece)];
      var next := Substr(query, found.value + 2, NPos);
      if next.None? {
        return None;
      }
      PiecesStep(query, sep, next.value, names);
      names := names + [piece];
      query := next.value;
      found := Find(query, sep);
    }
    var piece := Prefix(query, NPos - 1);
    result := result + [catalogue.GetStop(piece)];
    assert Pieces(query, sep) == Some([piece]);
    names := names + [piece];
    stops := Some(result);
  }

  /**
   * GetBusQuery: the bus name and its stops as looked up in the catalogue;
   * a route without '>' is run out and back. None when a substr throws.
   */
  method GetBusQuery(catalogue: TransportCatalogue, query: string) returns (r: Option<(string, seq<StopRef>)>)
    requires catalogue.Valid() && |query| <= NPos
    ensures r.None? <==> BusRoute(query).None?
    ensures r.Some? ==> r.value.0 == BusRoute(query).value.0 && LookedUp(catalogue, BusRoute(query).value.1, r.value.1)
  {
    var colon := Pos(Find(query, ':'));
    var name := Substr(query, BusNamePos, Wrap(colon - BusNamePos));
    if name.None? {
      return None;
    }
    var rest := Substr(query, Wrap(colon + 2), NPos);
    if rest.None? {
      return None;
    }
    var route := rest.value;
    if Find(route, '>').None? {
      var listed := SplitRoute(catalogue, route, '-');
      if listed.None? {
        return None;
      }
      var stops := ExpandOutAndBack(listed.value);
      OutAndBackLookedUp(catalogue, Pieces(route, '-').value, listed.value);
      r := Some((name.value, stops));
    } else {
      var stops := SplitRoute(catalogue, route, '>');
      if stops.None? {
        return None;
      }
      r := Some((name.value, stops.value));
    }
  }

  // ---------------------------------------------------------------------------
  // GetDistanceQuery

  /**
   * One "<D>m to <name>" field at the start of q: stoi of the text before the
   * first 'm', and the name from five past that 'm' up to the first ','. With
   * no 'm' the position is npos, and npos + 5 wraps around to 4.
   */
  function EntryAt(q: string): (r: Option<(int, string)>)
    requires |q| <= NPos
  {
    var m := Pos(Find(q, 'm'));
    match Stoi(Prefix(q, m))
    case None => None
    case Some(d) =>
      match Substr(q, Wrap(m + StopNamePos), NPos)
      case None => None
      case Some(to) => Some((d, Prefix(to, Pos(Find(to, ',')))))
  }

  /** The distance fields from q on: one field, then two past the next ',' while there is one. */
  function Entries(q: string): (r: Option<seq<(int, string)>>)
    requires |q| <= NPos
    ensures r.Some? ==> |r.value| >= 1
    decreases |q|
  {
    match EntryAt(q)
    case None => None
    case Some(e) =>
      match Find(q, ',')
      case None => Some([e])
      case Some(c) =>
        if c + 2 > |q| then None
        else match Entries(q[c + 2..]) {
          case None => None
          case Some(rest) => Some([e] + rest)
        }
  }

  /** The name of the stop a line describes, from position 5 to the first ':'. */
  function DistanceFrom(query: string): (r: Option<string>)
    requires |query| <= NPos
  {
    Substr(query, StopNamePos, Wrap(Pos(Find(query, ':')) - StopNamePos))
  }

  /** The text after the first ',' of a line, which is the whole line when it has no ','. */
  function AfterComma(query: string): (r: string)
    requires |query| <= NPos
    ensures |r| <= |query|
  {
    match Find(query, ',')
    case None => Substr(query, Wrap(NPos + 1), NPos).value
    case Some(c) => Substr(query, c + 1, NPos).value
  }

  /** The text two past the first ',' of q; npos + 2 wraps around to 1. */
  function FieldsText(q: string): (r: Option<string>)
    requires |q| <= NPos
    ensures r.Some? ==> |r.value| <= |q|
  {
    Substr(q, Wrap(Pos(Find(q, ',')) + 2), NPos)
  }

  /**
   * GetDistanceQuery as written: after the latitude's ',' it skips two past
   * the next ',' even when there is none, so that npos + 2 wraps around to 1
   * and the longitude is read as a distance field.
   */
  function DistanceListAsWritten(query: string): (r: Option<(string, seq<(int, string)>)>)
    requires |query| <= NPos
  {
    match DistanceFrom(query)
    case None => None
    case Some(from) =>
      match FieldsText(AfterComma(query))
      case None => None
      case Some(fields) =>
        match Entries(fields) {
          case None => None
          case Some(entries) => Some((from, entries))
        }
  }

  /**
   * The name of the stop a line describes and its "<D>m to <name>" fields in
   * order; a line with no ',' after the longitude has no distances.
   */
  function DistanceList(query: string): (r: Option<(string, seq<(int, string)>)>)
    requires |query| <= NPos
    ensures r.Some? ==> DistanceFrom(query) == Some(r.value.0)
    ensures Find(AfterComma(query), ',').Some? ==> r == DistanceListAsWritten(query)
  {
    if DistanceFrom(query).Some? && Find(AfterComma(query), ',').None? then Some((DistanceFrom(query).value, []))
    else DistanceListAsWritten(query)
  }

  /** The name of a line whose first ':' leaves room for it. */
  lemma DistanceFromBetween(query: string, colon: nat)
    requires |query| <= NPos && Find(query, ':') == Some(colon) && StopNamePos <= colon
    ensures DistanceFrom(query) == Some(query[StopNamePos..colon])
  {
  }

  lemma AfterCommaAt(query: string, comma: nat)
    requires |query| <= NPos && Find(query, ',') == Some(comma)
    ensures AfterComma(query) == query[comma + 1..]
  {
    assert query[comma + 1..comma + 1 + Min(NPos, |query| - (comma + 1))] == query[comma + 1..];
  }

  /** A longitude that is the last field: no ',' follows and npos + 2 wraps around to just after the space. */
  lemma LongitudeLast(longitude: string)
    requires ',' !in longitude && |[' '] + longitude| <= NPos
    ensures Find([' '] + longitude, ',').None?
    ensures FieldsText([' '] + longitude) == Some(longitude)
  {
    var q := [' '] + longitude;
    FindAfter([' '], longitude, ',');
    FindFirst(longitude, ',');
    assert Wrap(NPos + 2) == 1;
    SubstrToEnd(q, 1);
    assert q[1..] == longitude;
  }

  /** A line with no ',' after the latitude's has no distances, and as written reads its fields text. */
  lemma ListWithoutFields(query: string, from: string, fields: string)
    requires |query| <= NPos && DistanceFrom(query) == Some(from)
    requires Find(AfterComma(query), ',').None? && FieldsText(AfterComma(query)) == Some(fields)
    ensures DistanceList(query) == Some((from, []))
    ensures DistanceListAsWritten(query) == if Entries(fields).None? then None else Some((from, Entries(fields).value))
  {
  }

  /** A line whose longitude is its last field has no distances, and as written reads the longitude as them. */
  lemma LastFieldLongitude(query: string, from: string, longitude: string)
    requires |query| <= NPos && ',' !in longitude
    requires DistanceFrom(query) == Some(from) && AfterComma(query) == [' '] + longitude
    ensures DistanceList(query) == Some((from, []))
    ensures DistanceListAsWritten(query) == if Entries(longitude).None? then None else Some((from, Entries(longitude).value))
  {
    LongitudeLast(longitude);
    ListWithoutFields(query, from, longitude);
  }

  /**
   * A stop line without distances has none; as written, the longitude itself
   * is read as the distance fields.
   */
  lemma StopLineDistances(name: string, latitude: string, longitude: string)
    requires ':' !in name && ',' !in name && ',' !in latitude && ',' !in longitude
    requires |StopLine(name, latitude, longitude)| < NPos
    ensures DistanceList(StopLine(name, latitude, longitude)) == Some((name, []))
    ensures DistanceListAsWritten(StopLine(name, latitude, longitude)) ==
              if Entries(longitude).None? then None else Some((name, Entries(longitude).value))
  {
    var line := StopLine(name, latitude, longitude);
    var colon := StopNamePos + |name|;
    var comma := colon + 2 + |latitude|;
    StopLineSeparators(name, latitude, longitude);
    DistanceFromBetween(line, colon);
    AfterCommaAt(line, comma);
    assert line[comma + 1] == ' ';
    assert line[comma + 1..] == [' '] + longitude;
    LastFieldLongitude(line, name, longitude);
  }

  /** How a distance is written after the coordinates: "<D>m to <name>". */
  function EntryText(distance: nat, to: string): string {
    Decimal(distance) + "m to " + to
  }

  /** Distance fields written one after another with ", " between them. */
  function EntriesText(entries: seq<(int, string)>): string
    requires |entries| >= 1 && forall k :: 0 <= k < |entries| ==> entries[k].0 >= 0
  {
    var first := EntryText(entries[0].0, entries[0].1);
    if |entries| == 1 then first else first + (", " + EntriesText(entries[1..]))
  }

  /** The line a stop is written as, with its distances. */
  function DistanceLine(name: string, latitude: string, longitude: string, entries: seq<(int, string)>): string
    requires forall k :: 0 <= k < |entries| ==> entries[k].0 >= 0
  {
    StopLine(name, latitude, longitude) + if entries == [] then "" else ", " + EntriesText(entries)
  }

  predicate Writable(entries: seq<(int, string)>) {
    forall k :: 0 <= k < |entries| ==> 0 <= entries[k].0 <= IntMax && ',' !in entries[k].1
  }

  lemma NoCommaInEntry(distance: nat, to: string)
    requires ',' !in to
    ensures ',' !in EntryText(distance, to) && 'm' !in Decimal(distance)
  {
    var d := Decimal(distance);
    assert forall k :: 0 <= k < |d| ==> d[k] != ',' && d[k] != 'm';
    assert EntryText(distance, to) == d + ("m to " + to);
  }

  /** substr from a position to the end of the text. */
  lemma SubstrToEnd(s: string, pos: nat)
    requires pos <= |s| <= NPos
    ensures Substr(s, pos, NPos) == Some(s[pos..])
  {
    assert s[pos..pos + Min(NPos, |s| - pos)] == s[pos..];
  }

  /** A text free of ',' followed by nothing or by a ',' is cut back to itself at the first ','. */
  lemma CutAtComma(to: string, after: string)
    requires ',' !in to && (after == [] || after[0] == ',') && |to + after| <= NPos
    ensures Prefix(to + after, Pos(Find(to + after, ','))) == to
  {
    if after == [] {
      assert to + after == to;
      FindFirst(to, ',');
    } else {
      FindAfter(to, after, ',');
      FindAt(after, ',', 0);
      assert (to + after)[..|to|] == to;
    }
  }

  /** The first 'm' of a text is the one after a run free of 'm'. */
  lemma MarkAfter(d: string, rest: string)
    requires 'm' !in d && rest != [] && rest[0] == 'm'
    ensures Find(d + rest, 'm') == Some(|d|)
  {
    FindAfter(d, rest, 'm');
    FindAt(rest, 'm', 0);
  }

  /** What follows "m to " after a prefix, read to the end of the text. */
  lemma AfterMark(d: string, to: string, after: string)
    requires |d + ("m to " + to + after)| <= NPos
    ensures Substr(d + ("m to " + to + after), |d| + StopNamePos, NPos) == Some(to + after)
  {
    var rest := "m to " + to + after;
    var text := d + rest;
    assert rest[5..] == to + after;
    assert text[|d|..] == rest;
    SubstrToEnd(text, |d| + 5);
  }

  /** Where the 'm' of a written field is, what stoi reads before it and what follows "m to ". */
  lemma EntryTextParts(distance: nat, to: string, after: string)
    requires distance <= IntMax && ',' !in to && |EntryText(distance, to) + after| <= NPos
    ensures var text := EntryText(distance, to) + after;
            var m := |Decimal(distance)|;
            && Find(text, 'm') == Some(m) && Prefix(text, m) == Decimal(distance)
            && Substr(text, m + StopNamePos, NPos) == Some(to + after)
  {
    var d := Decimal(distance);
    var rest := "m to " + to + after;
    var text := EntryText(distance, to) + after;
    assert text == d + rest;
    NoCommaInEntry(distance, to);
    MarkAfter(d, rest);
    assert Prefix(text, |d|) == d;
    AfterMark(d, to, after);
  }

  /** EntryAt from where its 'm' is, what stoi reads before it and what follows "m to ". */
  lemma EntryAtFrom(q: string, m: nat, d: int, to: string)
    requires |q| <= NPos && Find(q, 'm') == Some(m) && Stoi(Prefix(q, m)) == Some(d)
    requires Substr(q, m + StopNamePos, NPos) == Some(to)
    ensures EntryAt(q) == Some((d, Prefix(to, Pos(Find(to, ',')))))
  {
  }

  /** A written field, followed by nothing or by a ',', reads back as its distance and name. */
  lemma EntryAtText(distance: nat, to: string, after: string)
    requires distance <= IntMax && ',' !in to && (after == [] || after[0] == ',')
    requires |EntryText(distance, to) + after| <= NPos
    ensures EntryAt(EntryText(distance, to) + after) == Some((distance, to))
  {
    EntryTextParts(distance, to, after);
    StoiOfDecimal(distance);
    EntryAtFrom(EntryText(distance, to) + after, |Decimal(distance)|, distance, to + after);
    CutAtComma(to, after);
  }

  lemma StoiOfDecimal(distance: nat)
    requires distance <= IntMax
    ensures Stoi(Decimal(distance)) == Some(distance)
  {
    assert Decimal(distance) + [] == Decimal(distance);
    StoiDecimal(distance, []);
  }

  /** The last field: no ',' follows. */
  lemma EntriesLast(q: string, e: (int, string))
    requires |q| <= NPos && EntryAt(q) == Some(e) && ',' !in q
    ensures Entries(q) == Some([e])
  {
    FindFirst(q, ',');
  }

  /** A field whose ',' leaves room for ", ": what follows it reads on. */
  lemma EntriesAt(q: string, c: nat, e: (int, string))
    requires |q| <= NPos && EntryAt(q) == Some(e) && Find(q, ',') == Some(c) && c + 2 <= |q|
    ensures Entries(q) == Then([e], Entries(q[c + 2..]))
  {
    var tail := q[c + 2..];
    assert Entries(q) == match Entries(tail) { case None => None case Some(rest) => Some([e] + rest) };
  }

  /** The first ',' of a field followed by ", " is the one after the field. */
  lemma CommaAfter(first: string, rest: string)
    requires ',' !in first
    ensures Find(first + (", " + rest), ',') == Some(|first|)
    ensures (first + (", " + rest))[|first| + 2..] == rest
  {
    FindAfter(first, ", " + rest, ',');
    FindAt(", " + rest, ',', 0);
  }

  /** A field followed by ", " and more fields. */
  lemma EntriesNext(first: string, rest: string, e: (int, string))
    requires |first + (", " + rest)| <= NPos && ',' !in first && EntryAt(first + (", " + rest)) == Some(e)
    ensures Entries(first + (", " + rest)) == Then([e], Entries(rest))
  {
    var text := first + (", " + rest);
    CommaAfter(first, rest);
    EntriesAt(text, |first|, e);
  }

  /** A single written field reads back as itself. */
  lemma EntriesOfOne(entries: seq<(int, string)>)
    requires |entries| == 1 && Writable(entries) && |EntriesText(entries)| <= NPos
    ensures Entries(EntriesText(entries)) == Some(entries)
  {
    var first := EntryText(entries[0].0, entries[0].1);
    NoCommaInEntry(entries[0].0, entries[0].1);
    EntryAtText(entries[0].0, entries[0].1, []);
    assert first + [] == first;
    EntriesLast(first, entries[0]);
    assert entries == [entries[0]];
  }

  /** The first of several written fields reads back, then the rest of them. */
  lemma EntriesOfFirst(entries: seq<(int, string)>)
    requires |entries| >= 2 && Writable(entries) && |EntriesText(entries)| <= NPos
    ensures |EntriesText(entries[1..])| <= NPos
    ensures Entries(EntriesText(entries)) == Then([entries[0]], Entries(EntriesText(entries[1..])))
  {
    var first := EntryText(entries[0].0, entries[0].1);
    var rest := EntriesText(entries[1..]);
    NoCommaInEntry(entries[0].0, entries[0].1);
    assert EntriesText(entries) == first + (", " + rest);
    EntryAtText(entries[0].0, entries[0].1, ", " + rest);
    EntriesNext(first, rest, entries[0]);
  }

  /** Once the rest of several written fields reads back, all of them do. */
  lemma EntriesOfMore(entries: seq<(int, string)>)
    requires |entries| >= 2 && Writable(entries) && |EntriesText(entries)| <= NPos
    ensures |EntriesText(entries[1..])| <= NPos
    ensures Entries(EntriesText(entries[1..])) == Some(entries[1..]) ==> Entries(EntriesText(entries)) == Some(entries)
  {
    EntriesOfFirst(entries);
    assert [entries[0]] + entries[1..] == entries;
  }

  /** Written distance fields read back as themselves. */
  lemma {:induction false} EntriesOfText(entries: seq<(int, string)>)
    requires |entries| >= 1 && Writable(entries) && |EntriesText(entries)| <= NPos
    ensures Entries(EntriesText(entries)) == Some(entries)
  {
    if |entries| == 1 {
      EntriesOfOne(entries);
    } else {
      EntriesOfMore(entries);
      EntriesOfText(entries[1..]);
    }
  }

  /** The fields two past the second ',' of a line are what DistanceList reads. */
  lemma ListFromFields(query: string, from: string, fields: string)
    requires |query| <= NPos && DistanceFrom(query) == Some(from)
    requires Find(AfterComma(query), ',').Some? && FieldsText(AfterComma(query)) == Some(fields)
    ensures DistanceList(query) == if Entries(fields).None? then None else Some((from, Entries(fields).value))
  {
  }

  /** After the longitude's ", " come the distance fields. */
  lemma FieldsAfter(longitude: string, fields: string)
    requires ',' !in longitude && |[' '] + longitude + ", " + fields| <= NPos
    ensures Find([' '] + longitude + ", " + fields, ',').Some?
    ensures FieldsText([' '] + longitude + ", " + fields) == Some(fields)
  {
    var head := [' '] + longitude;
    var q := head + (", " + fields);
    assert q == [' '] + longitude + ", " + fields;
    FindAfter(head, ", " + fields, ',');
    FindAt(", " + fields, ',', 0);
    assert q[|head| + 2..] == fields;
    SubstrToEnd(q, |head| + 2);
  }

  /** A line whose longitude is followed by ", " and distance fields reads them. */
  lemma FieldsAfterLongitude(query: string, from: string, longitude: string, fields: string)
    requires |query| <= NPos && ',' !in longitude
    requires DistanceFrom(query) == Some(from) && AfterComma(query) == [' '] + longitude + ", " + fields
    ensures DistanceList(query) == if Entries(fields).None? then None else Some((from, Entries(fields).value))
  {
    FieldsAfter(longitude, fields);
    ListFromFields(query, from, fields);
  }

  /** Where the name and the text after the latitude's ',' are in a stop line followed by distances. */
  lemma StopLineFollowed(name: string, latitude: string, longitude: string, fields: string)
    requires ':' !in name && ',' !in name && ',' !in latitude
    requires |StopLine(name, latitude, longitude) + ", " + fields| <= NPos
    ensures var line := StopLine(name, latitude, longitude) + ", " + fields;
            DistanceFrom(line) == Some(name) && AfterComma(line) == [' '] + longitude + ", " + fields
  {
    var stopLine := StopLine(name, latitude, longitude);
    var line := stopLine + (", " + fields);
    assert line == stopLine + ", " + fields;
    var colon := StopNamePos + |name|;
    var comma := colon + 2 + |latitude|;
    StopLineSeparators(name, latitude, longitude);
    FindBefore(stopLine, ", " + fields, ':');
    FindBefore(stopLine, ", " + fields, ',');
    assert line[StopNamePos..colon] == stopLine[StopNamePos..colon];
    DistanceFromBetween(line, colon);
    AfterCommaAt(line, comma);
    assert stopLine[comma + 1..] == [' '] + longitude;
    assert line[comma + 1..] == [' '] + longitude + ", " + fields;
  }

  /**
   * A written stop line reads back as its name and its distances in order,
   * as long as no name, no coordinate and no destination holds a ','.
   */
  lemma DistanceLineRoundTrip(name: string, latitude: string, longitude: string, entries: seq<(int, string)>)
    requires ':' !in name && ',' !in name && ',' !in latitude && ',' !in longitude && Writable(entries)
    requires |DistanceLine(name, latitude, longitude, entries)| < NPos
    ensures DistanceList(DistanceLine(name, latitude, longitude, entries)) == Some((name, entries))
  {
    var stopLine := StopLine(name, latitude, longitude);
    if entries == [] {
      assert DistanceLine(name, latitude, longitude, entries) == stopLine;
      StopLineDistances(name, latitude, longitude);
      assert DistanceList(stopLine) == Some((name, entries));
    } else {
      var fields := EntriesText(entries);
      var line := stopLine + ", " + fields;
      assert DistanceLine(name, latitude, longitude, entries) == line;
      StopLineFollowed(name, latitude, longitude, fields);
      FieldsAfterLongitude(line, name, longitude, fields);
      EntriesOfText(entries);
      assert DistanceList(line) == Some((name, entries));
    }
  }

  /** With no 'm', npos stands for its position: stoi reads all the text and the name starts at npos + 5, that is 4. */
  lemma WithoutMParts(q: string)
    requires |q| <= NPos && 'm' !in q
    ensures Find(q, 'm').None? && Prefix(q, Pos(Find(q, 'm'))) == q
    ensures Wrap(Pos(Find(q, 'm')) + StopNamePos) == 4
  {
    FindFirst(q, 'm');
    assert Prefix(q, NPos) == q;
  }

  /** A text free of ',' is not cut. */
  lemma NoCommaCut(to: string)
    requires |to| <= NPos && ',' !in to
    ensures Prefix(to, Pos(Find(to, ','))) == to
  {
    FindFirst(to, ',');
    assert Prefix(to, NPos) == to;
  }

  /** The field of a text with no 'm' and no ','. */
  lemma EntryAtWithoutM(q: string)
    requires |q| <= NPos && 'm' !in q && ',' !in q
    ensures EntryAt(q) == if Stoi(q).None? || |q| < 4 then None else Some((Stoi(q).value, q[4..]))
  {
    WithoutMParts(q);
    if |q| >= 4 {
      SubstrToEnd(q, 4);
      var to := q[4..];
      assert ',' !in to by { assert forall k :: 0 <= k < |to| ==> to[k] == q[k + 4]; }
      NoCommaCut(to);
    }
  }

  /** A field with no 'm' and no ',': stoi reads the text, and the name is what follows its fourth character. */
  lemma EntriesWithoutM(q: string)
    requires |q| <= NPos && 'm' !in q && ',' !in q
    ensures Entries(q) == if Stoi(q).None? || |q| < 4 then None else Some([(Stoi(q).value, q[4..])])
  {
    EntryAtWithoutM(q);
    if EntryAt(q).Some? {
      EntriesLast(q, EntryAt(q).value);
    } else {
      EntriesFail(q);
    }
  }

  lemma StoiOfLongitude()
    ensures Stoi("37.20829") == Some(37)
  {
    assert Decimal(37) == "37";
    assert "37.20829" == Decimal(37) + ".20829";
    StoiDecimal(37, ".20829");
  }

  /** The longitude "37.20829" read as a distance field, and "2", which is too short to be read. */
  lemma LongitudeAsDistance()
    ensures Entries("37.20829") == Some([(37, "0829")])
    ensures Entries("2") == None
  {
    EntriesWithoutM("37.20829");
    EntriesWithoutM("2");
    StoiOfLongitude();
    assert "37.20829"[4..] == "0829";
  }

  /**
   * A stop line without distances: as written, the longitude "37.20829" is
   * read as a distance of 37 to a stop named "0829", and the longitude "2"
   * makes substr throw; the line has no distances.
   */
  lemma LineWithoutDistances()
    ensures DistanceListAsWritten("Stop A: 55.611087, 37.20829") == Some(("A", [(37, "0829")]))
    ensures DistanceList("Stop A: 55.611087, 37.20829") == Some(("A", []))
    ensures DistanceListAsWritten("Stop A: 1, 2") == None
    ensures DistanceList("Stop A: 1, 2") == Some(("A", []))
  {
    assert StopLine("A", "55.611087", "37.20829") == "Stop A: 55.611087, 37.20829";
    assert StopLine("A", "1", "2") == "Stop A: 1, 2";
    StopLineDistances("A", "55.611087", "37.20829");
    StopLineDistances("A", "1", "2");
    LongitudeAsDistance();
  }

  /** Every distance pairs the catalogue's answers for `from` and for its field's name with the field's value. */
  ghost predicate Resolves(catalogue: TransportCatalogue, from: string, entries: seq<(int, string)>, ds: seq<Distance>)
    reads catalogue
    requires catalogue.Valid()
  {
    |ds| == |entries| &&
    forall k :: 0 <= k < |entries| ==> ds[k] == Distance(catalogue.GetStop(from), catalogue.GetStop(entries[k].1), entries[k].0)
  }

  /** The text after a position holds no c when the whole text holds none. */
  lemma FreeSuffix(q: string, pos: nat, c: char)
    requires pos <= |q| && c !in q
    ensures c !in q[pos..]
  {
    assert forall k :: 0 <= k < |q| - pos ==> q[pos..][k] == q[pos + k];
  }

  /**
   * The loop of GetDistanceQuery over the distance fields: each field up to
   * the next ',' gives a distance, then the last field gives one more.
   */
  method ReadFields(catalogue: TransportCatalogue, from: string, fields: string) returns (r: Option<seq<Distance>>)
    requires catalogue.Valid() && |fields| <= NPos
    ensures r.None? <==> Entries(fields).None?
    ensures r.Some? ==> Resolves(catalogue, from, Entries(fields).value, r.value)
  {
    var q := fields;
    ThenNothing(Entries(fields));
    var result: seq<Distance> := [];
    ghost var done: seq<(int, string)> := [];
    while Find(q, ',').Some?
      invariant |q| <= NPos
      invariant Entries(fields) == Then(done, Entries(q))
      invariant Resolves(catalogue, from, done, result)
      decreases |q|
    {
      var entry := EntryAt(q);
      if entry.None? {
        EntriesFail(q);
        return None;
      }
      var next := Substr(q, Find(q, ',').value + 2, NPos);
      if next.None? {
        EntriesCut(q);
        return None;
      }
      var distance := Distance(catalogue.GetStop(from), catalogue.GetStop(entry.value.1), entry.value.0);
      ResolvesStep(catalogue, from, done, result, entry.value, distance);
      EntriesStep(q, entry.value, next.value, done);
      result := result + [distance];
      done := done + [entry.value];
      q := next.value;
    }
    // The last field: with no ',' left, cutting the name at the first ',' keeps all of it.
    var entry := EntryAt(q);
    if entry.None? {
      EntriesFail(q);
      return None;
    }
    FindFirst(q, ',');
    EntriesLast(q, entry.value);
    var distance := Distance(catalogue.GetStop(from), catalogue.GetStop(entry.value.1), entry.value.0);
    ResolvesStep(catalogue, from, done, result, entry.value, distance);
    r := Some(result + [distance]);
  }

  lemma ThenNothing<T>(r: Option<seq<T>>)
    ensures Then([], r) == r
  {
    if r.Some? {
      assert [] + r.value == r.value;
    }
  }

  lemma EntriesFail(q: string)
    requires |q| <= NPos && EntryAt(q).None?
    ensures Entries(q).None?
  {
  }

  lemma EntriesCut(q: string)
    requires |q| <= NPos && Find(q, ',').Some? && Substr(q, Find(q, ',').value + 2, NPos).None?
    ensures Entries(q).None?
  {
  }

  lemma ResolvesStep(catalogue: TransportCatalogue, from: string, done: seq<(int, string)>, result: seq<Distance>,
                     entry: (int, string), distance: Distance)
    requires catalogue.Valid() && Resolves(catalogue, from, done, result)
    requires distance == Distance(catalogue.GetStop(from), catalogue.GetStop(entry.1), entry.0)
    ensures Resolves(catalogue, from, done + [entry], result + [distance])
  {
  }

  /** What substr to the end gives is the slice from its position. */
  lemma SubstrFrom(q: string, pos: nat, next: string)
    requires |q| <= NPos && Substr(q, pos, NPos) == Some(next)
    ensures pos <= |q| && next == q[pos..]
  {
  }

  lemma ThenThen<T>(done: seq<T>, first: seq<T>, tail: Option<seq<T>>)
    ensures Then(done, Then(first, tail)) == Then(done + first, tail)
  {
    if tail.Some? {
      assert done + (first + tail.value) == (done + first) + tail.value;
    }
  }

  /** One pass of the loop: the field read and what the rest of the text gives. */
  lemma EntriesStep(q: string, entry: (int, string), next: string, done: seq<(int, string)>)
    requires |q| <= NPos && Find(q, ',').Some? && EntryAt(q) == Some(entry)
    requires Substr(q, Find(q, ',').value + 2, NPos) == Some(next)
    ensures Then(done, Entries(q)) == Then(done + [entry], Entries(next))
  {
    var c := Find(q, ',').value;
    SubstrFrom(q, c + 2, next);
    EntriesAt(q, c, entry);
    ThenThen(done, [entry], Entries(next));
  }

  /**
   * GetDistanceQuery: the distances a stop line lists, each from the stop the
   * line describes, as looked up in the catalogue. A line with no ',' after
   * the longitude lists none (see DistanceList).
   */
  method GetDistanceQuery(catalogue: TransportCatalogue, query: string) returns (r: Option<seq<Distance>>)
    requires catalogue.Valid() && |query| <= NPos
    ensures r.None? <==> DistanceList(query).None?
    ensures r.Some? ==> Resolves(catalogue, DistanceList(query).value.0, DistanceList(query).value.1, r.value)
  {
    var from := DistanceFrom(query);
    if from.None? {
      return None;
    }
    var q := AfterComma(query);
    if Find(q, ',').None? {
      return Some([]);
    }
    var fields := FieldsText(q);
    if fields.None? {
      return None;
    }
    r := ReadFields(catalogue, from.value, fields.value);
  }

  // ---------------------------------------------------------------------------
  // InputStream: the count line, the request lines it announces, and the
  // catalogue filled from them: all stops, then all distances, then all buses.

  /** The input text cut at its newlines, and whether its last line ends with one. */
  datatype Input = Input(lines: seq<string>, terminated: bool)

  /** Every line fits in a std::string. */
  predicate AllFit(lines: seq<string>) {
    forall k :: 0 <= k < |lines| ==> |lines[k]| <= NPos
  }

  /**
   * What a string holds after std::getline number r (number 0 reads the count
   * line). Past the last line, a text that ends with a newline yields "" once
   * and later reads fail without touching it; otherwise every read fails and
   * leaves the last line read in place: the text's last line (InputStream
   * holds it trimmed, which trims to the same text) unless that was the
   * count line, when the request string is still empty.
   */
  function ReadLine(input: Input, r: nat): (line: string)
    requires AllFit(input.lines)
    ensures |line| <= NPos
  {
    if r < |input.lines| then input.lines[r]
    else if input.terminated || |input.lines| <= 1 then []
    else input.lines[|input.lines| - 1]
  }

  /** std::string::find_first_not_of(' '). */
  function FirstNonSpace(s: string): (r: Option<nat>)
    ensures r.Some? ==> r.value < |s| && s[r.value] != ' ' && forall k :: 0 <= k < r.value ==> s[k] == ' '
    ensures r.None? ==> forall k :: 0 <= k < |s| ==> s[k] == ' '
  {
    if s == [] then None
    else if s[0] != ' ' then Some(0)
    else match FirstNonSpace(s[1..]) {
      case None => None
      case Some(k) => Some(k + 1)
    }
  }

  /** A non-empty line of spaces only: find_first_not_of gives npos and substr(npos) throws. */
  predicate Blank(line: string) {
    line != [] && forall k :: 0 <= k < |line| ==> line[k] == ' '
  }

  /** A trimmed request line is a bus when its first three characters are "Bus". */
  predicate IsBusLine(t: string) {
    Prefix(t, 3) == "Bus"
  }

  /** How many of reads 1..n gave a non-empty line. */
  function Filled(input: Input, n: nat): nat
    requires AllFit(input.lines)
  {
    if n == 0 then 0 else Filled(input, n - 1) + if ReadLine(input, n) == [] then 0 else 1
  }

  /**
   * The stop lines and the bus lines among reads 1..n, in order, without their
   * leading spaces; empty lines are read but skipped, and a blank line throws.
   */
  function Gathered(input: Input, n: nat): Option<(seq<string>, seq<string>)>
    requires AllFit(input.lines)
  {
    if n == 0 then Some(([], []))
    else
      match Gathered(input, n - 1)
      case None => None
      case Some((stops, buses)) =>
        var line := ReadLine(input, n);
        if line == [] then Some((stops, buses))
        else
          match FirstNonSpace(line)
          case None => None
          case Some(p) =>
            var t := line[p..];
            if !IsBusLine(t) then Some((stops + [t], buses)) else Some((stops, buses + [t]))
  }

  /**
   * The stop lines and bus lines InputStream gathers: none when the count line
   * is empty, None when stoi of the count line throws or a line is blank. The
   * count is converted to size_t, so a negative one wraps around.
   */
  function Requests(input: Input): (r: Option<(seq<string>, seq<string>)>)
    requires AllFit(input.lines)
    ensures r.Some? ==> AllFit(r.value.0) && AllFit(r.value.1)
  {
    var count := ReadLine(input, 0);
    if count == [] then Some(([], []))
    else
      match Stoi(count)
      case None => None
      case Some(n) =>
        var g := Gathered(input, SizeT(n));
        if g.Some? then GatheredSorted(input, SizeT(n)); g else g
  }

  /** GetStopQuery of every stop line, in order; None when one of them throws. */
  function ParsedStops(lines: seq<string>, parseDouble: string -> Option<real>): Option<seq<Stop>>
    requires AllFit(lines)
  {
    if lines == [] then Some([])
    else
      var prefix := lines[..|lines| - 1];
      match ParsedStops(prefix, parseDouble)
      case None => None
      case Some(stops) =>
        match GetStopQuery(lines[|lines| - 1], parseDouble)
        case None => None
        case Some(stop) => Some(stops + [stop])
  }

  /** One stop line that throws makes the whole pass throw. */
  lemma {:induction false} ParsedStopsFails(lines: seq<string>, parseDouble: string -> Option<real>, i: nat)
    requires AllFit(lines) && i < |lines| && GetStopQuery(lines[i], parseDouble).None?
    ensures ParsedStops(lines, parseDouble).None?
    decreases |lines|
  {
    var prefix := lines[..|lines| - 1];
    if i < |prefix| {
      assert prefix[i] == lines[i];
      ParsedStopsFails(prefix, parseDouble, i);
    }
  }

  /** When every stop line parses, the k-th stop is the k-th line's. */
  lemma {:induction false} ParsedStopsAll(lines: seq<string>, parseDouble: string -> Option<real>)
    requires AllFit(lines) && forall k :: 0 <= k < |lines| ==> GetStopQuery(lines[k], parseDouble).Some?
    ensures var r := ParsedStops(lines, parseDouble);
            && r.Some? && |r.value| == |lines|
            && forall k :: 0 <= k < |lines| ==> r.value[k] == GetStopQuery(lines[k], parseDouble).value
    decreases |lines|
  {
    if lines != [] {
      var prefix := lines[..|lines| - 1];
      assert forall k :: 0 <= k < |prefix| ==> prefix[k] == lines[k];
      ParsedStopsAll(prefix, parseDouble);
    }
  }

  /** The stops load exactly when every stop line parses. */
  lemma ParsedStopsIff(lines: seq<string>, parseDouble: string -> Option<real>)
    requires AllFit(lines)
    ensures ParsedStops(lines, parseDouble).Some? <==> forall k :: 0 <= k < |lines| ==> GetStopQuery(lines[k], parseDouble).Some?
  {
    if forall k :: 0 <= k < |lines| ==> GetStopQuery(lines[k], parseDouble).Some? {
      ParsedStopsAll(lines, parseDouble);
    } else {
      var k :| 0 <= k < |lines| && GetStopQuery(lines[k], parseDouble).None?;
      ParsedStopsFails(lines, parseDouble, k);
    }
  }

  /** The distances of one line's fields, resolved against the stop names as GetStop would. */
  function Resolved(names: seq<string>, from: string, entries: seq<(int, string)>): seq<Distance> {
    seq(|entries|, k requires 0 <= k < |entries| => Distance(IndexOf(names, from), IndexOf(names, entries[k].1), entries[k].0))
  }

  /** The distances of every stop line, in order; None when one of them throws. */
  function LineDistances(names: seq<string>, lines: seq<string>): Option<seq<Distance>>
    requires AllFit(lines)
  {
    if lines == [] then Some([])
    else
      var prefix := lines[..|lines| - 1];
      match LineDistances(names, prefix)
      case None => None
      case Some(ds) =>
        match DistanceList(lines[|lines| - 1])
        case None => None
        case Some((from, entries)) => Some(ds + Resolved(names, from, entries))
  }

  /** One more stop line: its resolved distances follow those of the lines before it. */
  lemma LineDistancesNext(names: seq<string>, lines: seq<string>, i: nat, done: seq<Distance>, ds: seq<Distance>)
    requires AllFit(lines) && i < |lines| && LineDistances(names, lines[..i]) == Some(done)
    requires DistanceList(lines[i]).Some?
    requires ds == Resolved(names, DistanceList(lines[i]).value.0, DistanceList(lines[i]).value.1)
    ensures LineDistances(names, lines[..i + 1]) == Some(done + ds)
  {
    assert lines[..i + 1][..i] == lines[..i];
  }

  /** One stop line whose distance list throws makes the whole pass throw. */
  lemma {:induction false} LineDistancesFails(names: seq<string>, lines: seq<string>, i: nat)
    requires AllFit(lines) && i < |lines| && DistanceList(lines[i]).None?
    ensures LineDistances(names, lines).None?
    decreases |lines|
  {
    var prefix := lines[..|lines| - 1];
    if i < |prefix| {
      assert prefix[i] == lines[i];
      LineDistancesFails(names, prefix, i);
    }
  }

  /** When every distance list parses, so does the whole pass. */
  lemma {:induction false} LineDistancesAll(names: seq<string>, lines: seq<string>)
    requires AllFit(lines) && forall k :: 0 <= k < |lines| ==> DistanceList(lines[k]).Some?
    ensures LineDistances(names, lines).Some?
    decreases |lines|
  {
    if lines != [] {
      var prefix := lines[..|lines| - 1];
      assert forall k :: 0 <= k < |prefix| ==> prefix[k] == lines[k];
      LineDistancesAll(names, prefix);
    }
  }

  /** The distances load exactly when every stop line's distance list parses. */
  lemma LineDistancesIff(names: seq<string>, lines: seq<string>)
    requires AllFit(lines)
    ensures LineDistances(names, lines).Some? <==> forall k :: 0 <= k < |lines| ==> DistanceList(lines[k]).Some?
  {
    if forall k :: 0 <= k < |lines| ==> DistanceList(lines[k]).Some? {
      LineDistancesAll(names, lines);
    } else {
      var k :| 0 <= k < |lines| && DistanceList(lines[k]).None?;
      LineDistancesFails(names, lines, k);
    }
  }

  /** The name and stop names GetBusQuery reads from every bus line. */
  function Routes(lines: seq<string>): (r: seq<Option<(string, seq<string>)>>)
    requires AllFit(lines)
    ensures |r| == |lines| && forall k :: 0 <= k < |lines| ==> r[k] == BusRoute(lines[k])
  {
    seq(|lines|, k requires 0 <= k < |lines| => BusRoute(lines[k]))
  }

  /**
   * The buses of the bus lines, in order, and how loading them ends: Thrown
   * at the first line whose parsing throws, Undefined at the first one naming
   * an unknown stop (AddBus dereferences the null pointer).
   */
  function BusesOf(names: seq<string>, table: DistanceTable, routes: seq<Option<(string, seq<string>)>>, unsetFlag: bool)
    : (Outcome, seq<Bus>)
  {
    if routes == [] then (Loaded, [])
    else
      var prefix := routes[..|routes| - 1];
      var (outcome, buses) := BusesOf(names, table, prefix, unsetFlag);
      if outcome != Loaded then (outcome, buses)
      else
        match routes[|routes| - 1]
        case None => (Thrown, buses)
        case Some(route) =>
          if !Known(names, route.1) then (Undefined, buses)
          else (Loaded, buses + [AddedBus(names, table, route, unsetFlag)])
  }

  /** Loading stops at a bus line that throws or names an unknown stop. */
  lemma {:induction false} BusesOfFails(names: seq<string>, table: DistanceTable, routes: seq<Option<(string, seq<string>)>>,
                                        unsetFlag: bool, i: nat)
    requires i < |routes| && (routes[i].None? || !Known(names, routes[i].value.1))
    ensures BusesOf(names, table, routes, unsetFlag).0 != Loaded
    decreases |routes|
  {
    var prefix := routes[..|routes| - 1];
    if i < |prefix| {
      assert prefix[i] == routes[i];
      BusesOfFails(names, table, prefix, unsetFlag, i);
    }
  }

  /** When every bus line parses and names known stops, the k-th bus is the k-th line's route resolved. */
  lemma {:induction false} BusesOfAll(names: seq<string>, table: DistanceTable, routes: seq<Option<(string, seq<string>)>>,
                                      unsetFlag: bool)
    requires forall k :: 0 <= k < |routes| ==> routes[k].Some? && Known(names, routes[k].value.1)
    ensures var r := BusesOf(names, table, routes, unsetFlag);
            && r.0 == Loaded && |r.1| == |routes|
            && forall k :: 0 <= k < |routes| ==> r.1[k] == AddedBus(names, table, routes[k].value, unsetFlag)
    decreases |routes|
  {
    if routes != [] {
      var prefix := routes[..|routes| - 1];
      assert forall k :: 0 <= k < |prefix| ==> prefix[k] == routes[k];
      BusesOfAll(names, table, prefix, unsetFlag);
      var before := BusesOf(names, table, prefix, unsetFlag).1;
      var last := routes[|prefix|].value;
      var buses := BusesOf(names, table, routes, unsetFlag).1;
      assert buses == before + [AddedBus(names, table, last, unsetFlag)];
      forall k | 0 <= k < |routes| ensures buses[k] == AddedBus(names, table, routes[k].value, unsetFlag) {
        if k < |prefix| {
          assert buses[k] == before[k];
        }
      }
    }
  }

  /** Loading succeeds exactly when every bus line parses and names only known stops. */
  lemma BusesOfLoaded(names: seq<string>, table: DistanceTable, routes: seq<Option<(string, seq<string>)>>, unsetFlag: bool)
    ensures BusesOf(names, table, routes, unsetFlag).0 == Loaded <==>
              forall k :: 0 <= k < |routes| ==> routes[k].Some? && Known(names, routes[k].value.1)
  {
    if forall k :: 0 <= k < |routes| ==> routes[k].Some? && Known(names, routes[k].value.1) {
      BusesOfAll(names, table, routes, unsetFlag);
    } else {
      var k :| 0 <= k < |routes| && !(routes[k].Some? && Known(names, routes[k].value.1));
      BusesOfFails(names, table, routes, unsetFlag, k);
    }
  }

  /** The buses of one more line: the next route, added after the ones before it. */
  lemma BusesOfNext(names: seq<string>, table: DistanceTable, routes: seq<Option<(string, seq<string>)>>, unsetFlag: bool, i: nat)
    requires i < |routes| && BusesOf(names, table, routes[..i], unsetFlag).0 == Loaded
    ensures var before := BusesOf(names, table, routes[..i], unsetFlag).1;
            BusesOf(names, table, routes[..i + 1], unsetFlag) ==
              if routes[i].None? then (Thrown, before)
              else if !Known(names, routes[i].value.1) then (Undefined, before)
              else (Loaded, before + [AddedBus(names, table, routes[i].value, unsetFlag)])
  {
    assert routes[..i + 1][..i] == routes[..i];
  }

  /** Once a bus line fails, loading the rest ends the same way. */
  lemma {:induction false} BusesOfSettled(names: seq<string>, table: DistanceTable, routes: seq<Option<(string, seq<string>)>>,
                                          unsetFlag: bool, i: nat)
    requires i <= |routes| && BusesOf(names, table, routes[..i], unsetFlag).0 != Loaded
    ensures BusesOf(names, table, routes, unsetFlag).0 == BusesOf(names, table, routes[..i], unsetFlag).0
    decreases |routes|
  {
    if i == |routes| {
      assert routes[..i] == routes;
    } else {
      var prefix := routes[..|routes| - 1];
      assert prefix[..i] == routes[..i];
      BusesOfSettled(names, table, prefix, unsetFlag, i);
    }
  }

  /** What GetDistanceQuery returns is the line's fields resolved against the catalogue's stop names. */
  lemma ResolvesNames(catalogue: TransportCatalogue, from: string, entries: seq<(int, string)>, ds: seq<Distance>)
    requires catalogue.Valid() && Resolves(catalogue, from, entries, ds)
    ensures ds == Resolved(StopNames(catalogue.stops), from, entries)
  {
    catalogue.GetStopFirst(from);
    forall k | 0 <= k < |entries| ensures ds[k] == Resolved(StopNames(catalogue.stops), from, entries)[k] {
      catalogue.GetStopFirst(entries[k].1);
    }
  }

  /** The first loading loop of InputStream: AddStop of every stop line, in order. */
  method LoadStops(catalogue: TransportCatalogue, lines: seq<string>, parseDouble: string -> Option<real>) returns (ok: bool)
    requires catalogue.Valid() && AllFit(lines)
    modifies catalogue
    ensures catalogue.Valid()
    ensures ok <==> ParsedStops(lines, parseDouble).Some?
    ensures ok ==> catalogue.stops == old(catalogue.stops) + ParsedStops(lines, parseDouble).value
    ensures catalogue.buses == old(catalogue.buses) && catalogue.busIndex == old(catalogue.busIndex)
    ensures catalogue.distances == old(catalogue.distances)
  {
    ghost var added: seq<Stop> := [];
    var i := 0;
    while i < |lines|
      invariant i <= |lines| && catalogue.Valid()
      invariant ParsedStops(lines[..i], parseDouble) == Some(added)
      invariant catalogue.stops == old(catalogue.stops) + added
      invariant catalogue.buses == old(catalogue.buses) && catalogue.busIndex == old(catalogue.busIndex)
      invariant catalogue.distances == old(catalogue.distances)
    {
      var stop := GetStopQuery(lines[i], parseDouble);
      if stop.None? {
        ParsedStopsFails(lines, parseDouble, i);
        return false;
      }
      assert lines[..i + 1][..i] == lines[..i];
      catalogue.AddStop(stop.value);
      AppendOne(old(catalogue.stops), added, stop.value);
      added := added + [stop.value];
      i := i + 1;
    }
    assert lines[..i] == lines;
    return true;
  }

  /** The second loading loop: every distance of every stop line, line by line, in order. */
  method LoadDistances(catalogue: TransportCatalogue, lines: seq<string>) returns (ok: bool)
    requires catalogue.Valid() && AllFit(lines)
    modifies catalogue
    ensures catalogue.Valid()
    ensures ok <==> LineDistances(StopNames(old(catalogue.stops)), lines).Some?
    ensures ok ==> catalogue.distances ==
                   Recorded(old(catalogue.distances), LineDistances(StopNames(old(catalogue.stops)), lines).value)
    ensures catalogue.stops == old(catalogue.stops) && catalogue.stopIndex == old(catalogue.stopIndex)
    ensures catalogue.buses == old(catalogue.buses) && catalogue.busIndex == old(catalogue.busIndex)
  {
    ghost var names := StopNames(catalogue.stops);
    ghost var done: seq<Distance> := [];
    var i := 0;
    while i < |lines|
      invariant i <= |lines| && catalogue.Valid()
      invariant LineDistances(names, lines[..i]) == Some(done)
      invariant catalogue.distances == Recorded(old(catalogue.distances), done)
      invariant catalogue.stops == old(catalogue.stops) && catalogue.stopIndex == old(catalogue.stopIndex)
      invariant catalogue.buses == old(catalogue.buses) && catalogue.busIndex == old(catalogue.busIndex)
    {
      var ds := GetDistanceQuery(catalogue, lines[i]);
      if ds.None? {
        LineDistancesFails(names, lines, i);
        return false;
      }
      ResolvesNames(catalogue, DistanceList(lines[i]).value.0, DistanceList(lines[i]).value.1, ds.value);
      LineDistancesNext(names, lines, i, done, ds.value);
      RecordedConcat(old(catalogue.distances), done, ds.value);
      RecordDistances(catalogue, ds.value);
      done := done + ds.value;
      i := i + 1;
    }
    assert lines[..i] == lines;
    return true;
  }

  /** One pass of the third loading loop: GetBusQuery of the line, then AddBus unless it threw or found an unknown stop. */
  method LoadBus(catalogue: TransportCatalogue, line: string, unsetFlag: bool) returns (outcome: Outcome)
    requires catalogue.Valid() && |line| <= NPos
    modifies catalogue
    ensures catalogue.Valid()
    ensures outcome == if BusRoute(line).None? then Thrown
                       else if !Known(StopNames(old(catalogue.stops)), BusRoute(line).value.1) then Undefined
                       else Loaded
    ensures outcome == Loaded ==>
              catalogue.buses == old(catalogue.buses) +
                [AddedBus(StopNames(old(catalogue.stops)), old(catalogue.distances), BusRoute(line).value, unsetFlag)]
    ensures Places(catalogue.stops) == Places(old(catalogue.stops))
    ensures StopNames(catalogue.stops) == StopNames(old(catalogue.stops))
    ensures catalogue.distances == old(catalogue.distances)
  {
    ghost var names := StopNames(catalogue.stops);
    var r := GetBusQuery(catalogue, line);
    if r.None? {
      return Thrown;
    }
    var refs := r.value.1;
    ghost var route := BusRoute(line).value;
    forall j | 0 <= j < |route.1| ensures refs[j] == IndexOf(names, route.1[j]) {
      catalogue.GetStopFirst(route.1[j]);
    }
    if None in refs {
      ghost var j :| 0 <= j < |refs| && refs[j] == None;
      assert route.1[j] !in names;
      return Undefined;
    }
    var stops := seq(|refs|, j requires 0 <= j < |refs| => refs[j].value);
    ghost var added := AddedBus(names, catalogue.distances, route, unsetFlag);
    assert stops == added.stops;
    ghost var before := catalogue.stops;
    catalogue.AddBus(Bus(r.value.0, stops, unsetFlag, 0));
    WithVisitsPlaces(before, |old(catalogue.buses)|, stops);
    return Loaded;
  }

  /** The third loading loop: AddBus of every bus line, in order. */
  method LoadBuses(catalogue: TransportCatalogue, lines: seq<string>, unsetFlag: bool) returns (outcome: Outcome)
    requires catalogue.Valid() && AllFit(lines)
    modifies catalogue
    ensures catalogue.Valid()
    ensures outcome == BusesOf(StopNames(old(catalogue.stops)), old(catalogue.distances), Routes(lines), unsetFlag).0
    ensures outcome == Loaded ==>
              catalogue.buses == old(catalogue.buses) +
                BusesOf(StopNames(old(catalogue.stops)), old(catalogue.distances), Routes(lines), unsetFlag).1
    ensures Places(catalogue.stops) == Places(old(catalogue.stops))
    ensures catalogue.distances == old(catalogue.distances)
  {
    ghost var names := StopNames(catalogue.stops);
    ghost var table := catalogue.distances;
    ghost var routes := Routes(lines);
    ghost var loaded: seq<Bus> := [];
    var i := 0;
    while i < |lines|
      invariant i <= |lines| && catalogue.Valid()
      invariant BusesOf(names, table, routes[..i], unsetFlag) == (Loaded, loaded)
      invariant catalogue.buses == old(catalogue.buses) + loaded
      invariant Places(catalogue.stops) == Places(old(catalogue.stops)) && StopNames(catalogue.stops) == names
      invariant catalogue.distances == table
    {
      outcome := LoadBus(catalogue, lines[i], unsetFlag);
      BusesOfNext(names, table, routes, unsetFlag, i);
      assert routes[i] == BusRoute(lines[i]);
      if outcome != Loaded {
        BusesOfSettled(names, table, routes, unsetFlag, i + 1);
        return;
      }
      ghost var bus := AddedBus(names, table, routes[i].value, unsetFlag);
      AppendOne(old(catalogue.buses), loaded, bus);
      loaded := loaded + [bus];
      i := i + 1;
    }
    assert routes[..i] == routes;
    return Loaded;
  }

  /** One more read: an empty line is skipped, a blank one throws, any other is trimmed and sorted. */
  lemma GatheredNext(input: Input, n: nat, stops: seq<string>, buses: seq<string>)
    requires AllFit(input.lines) && Gathered(input, n) == Some((stops, buses))
    ensures var line := ReadLine(input, n + 1);
            Gathered(input, n + 1) ==
              if line == [] then Some((stops, buses))
              else if FirstNonSpace(line).None? then None
              else if !IsBusLine(line[FirstNonSpace(line).value..]) then Some((stops + [line[FirstNonSpace(line).value..]], buses))
              else Some((stops, buses + [line[FirstNonSpace(line).value..]]))
  {
  }

  /** A blank line among the first m reads is among the first n for any n >= m. */
  lemma {:induction false} GatheredThrows(input: Input, m: nat, n: nat)
    requires AllFit(input.lines) && m <= n && Gathered(input, m).None?
    ensures Gathered(input, n).None?
    decreases n
  {
    if m < n {
      GatheredThrows(input, m, n - 1);
    }
  }

  /** A blank line among the first n reads makes reading throw. */
  lemma GatheredBlank(input: Input, n: nat, k: nat)
    requires AllFit(input.lines) && 1 <= k <= n && Blank(ReadLine(input, k))
    ensures Gathered(input, n).None?
  {
    GatheredThrows(input, k, n);
  }

  /** Without a blank line among the first n reads, reading does not throw. */
  lemma {:induction false} GatheredNoBlank(input: Input, n: nat)
    requires AllFit(input.lines) && forall k :: 1 <= k <= n ==> !Blank(ReadLine(input, k))
    ensures Gathered(input, n).Some?
  {
    if n > 0 {
      GatheredNoBlank(input, n - 1);
      var line := ReadLine(input, n);
      assert !Blank(line);
    }
  }

  /** Reading throws exactly when one of the lines read is blank. */
  lemma GatheredThrowsIff(input: Input, n: nat)
    requires AllFit(input.lines)
    ensures Gathered(input, n).None? <==> exists k :: 1 <= k <= n && Blank(ReadLine(input, k))
  {
    if exists k :: 1 <= k <= n && Blank(ReadLine(input, k)) {
      var k :| 1 <= k <= n && Blank(ReadLine(input, k));
      GatheredBlank(input, n, k);
    } else {
      GatheredNoBlank(input, n);
    }
  }

  /**
   * Every line read and not empty lands in one of the two lists, trimmed:
   * stop lines do not start with "Bus", bus lines do.
   */
  lemma {:induction false} GatheredSorted(input: Input, n: nat)
    requires AllFit(input.lines) && Gathered(input, n).Some?
    ensures var (stops, buses) := Gathered(input, n).value;
            && |stops| + |buses| == Filled(input, n)
            && (forall t :: t in stops ==> |t| <= NPos && t != [] && t[0] != ' ' && !IsBusLine(t))
            && (forall t :: t in buses ==> |t| <= NPos && t != [] && t[0] != ' ' && IsBusLine(t))
  {
    if n > 0 {
      GatheredSorted(input, n - 1);
      var (stops, buses) := Gathered(input, n - 1).value;
      GatheredNext(input, n - 1, stops, buses);
    }
  }

  /** The reading loop of InputStream: `size` request lines, sorted into stop lines and bus lines. */
  method GatherLines(input: Input, size: nat) returns (requests: Option<(seq<string>, seq<string>)>)
    requires AllFit(input.lines)
    ensures requests == Gathered(input, size)
  {
    var stopLines: seq<string> := [];
    var busLines: seq<string> := [];
    var i: nat := 0;
    while i < size
      invariant i <= size && Gathered(input, i) == Some((stopLines, busLines))
    {
      var query := ReadLine(input, i + 1);
      GatheredNext(input, i, stopLines, busLines);
      if query != [] {
        var space := FirstNonSpace(query);
        if space.None? {
          GatheredThrows(input, i + 1, size);
          return None;
        }
        var trimmed := query[space.value..];
        if !IsBusLine(trimmed) {
          stopLines := stopLines + [trimmed];
        } else {
          busLines := busLines + [trimmed];
        }
      }
      i := i + 1;
    }
    return Some((stopLines, busLines));
  }

  /** InputStream's reading: nothing for an empty count line, else stoi of it as a size_t, then the lines. */
  method ReadRequests(input: Input) returns (requests: Option<(seq<string>, seq<string>)>)
    requires AllFit(input.lines)
    ensures requests == Requests(input)
  {
    var count := ReadLine(input, 0);
    if count == [] {
      return Some(([], []));
    }
    var n := Stoi(count);
    if n.None? {
      return None;
    }
    requests := GatherLines(input, SizeT(n.value));
  }

  /** The loading loops of InputStream: all stops, then the distances of every stop line, then all buses. */
  method LoadRequests(catalogue: TransportCatalogue, stopLines: seq<string>, busLines: seq<string>,
                      parseDouble: string -> Option<real>, unsetFlag: bool) returns (outcome: Outcome)
    requires catalogue.Valid() && AllFit(stopLines) && AllFit(busLines)
    modifies catalogue
    ensures catalogue.Valid()
    ensures var parsed := ParsedStops(stopLines, parseDouble);
            && (parsed.None? ==> outcome == Thrown)
            && (parsed.Some? ==>
                  var names := StopNames(old(catalogue.stops) + parsed.value);
                  var ds := LineDistances(names, stopLines);
                  && (ds.None? ==> outcome == Thrown)
                  && (ds.Some? ==>
                        var table := Recorded(old(catalogue.distances), ds.value);
                        var loaded := BusesOf(names, table, Routes(busLines), unsetFlag);
                        && outcome == loaded.0
                        && (outcome == Loaded ==>
                              && Places(catalogue.stops) == Places(old(catalogue.stops) + parsed.value)
                              && catalogue.distances == table
                              && catalogue.buses == old(catalogue.buses) + loaded.1)))
  {
    var ok := LoadStops(catalogue, stopLines, parseDouble);
    if !ok {
      return Thrown;
    }
    ok := LoadDistances(catalogue, stopLines);
    if !ok {
      return Thrown;
    }
    outcome := LoadBuses(catalogue, busLines, unsetFlag);
  }

  /**
   * InputStream: reads the count line and that many request lines, then
   * loads them. `parseDouble` stands for std::stod and `unsetFlag` for the
   * is_roundtrip that bus lines never set.
   */
  method InputStream(catalogue: TransportCatalogue, input: Input, parseDouble: string -> Option<real>, unsetFlag: bool)
      returns (outcome: Outcome)
    requires catalogue.Valid() && AllFit(input.lines)
    modifies catalogue
    ensures catalogue.Valid()
    ensures Requests(input).None? ==>
              && outcome == Thrown && catalogue.stops == old(catalogue.stops)
              && catalogue.distances == old(catalogue.distances) && catalogue.buses == old(catalogue.buses)
    ensures Requests(input).Some? ==>
              var stopLines := Requests(input).value.0;
              var parsed := ParsedStops(stopLines, parseDouble);
              && (parsed.None? ==> outcome == Thrown)
              && (parsed.Some? ==>
                    var names := StopNames(old(catalogue.stops) + parsed.value);
                    var ds := LineDistances(names, stopLines);
                    && (ds.None? ==> outcome == Thrown)
                    && (ds.Some? ==>
                          var table := Recorded(old(catalogue.distances), ds.value);
                          var loaded := BusesOf(names, table, Routes(Requests(input).value.1), unsetFlag);
                          && outcome == loaded.0
                          && (outcome == Loaded ==>
                                && Places(catalogue.stops) == Places(old(catalogue.stops) + parsed.value)
                                && catalogue.distances == table
                                && catalogue.buses == old(catalogue.buses) + loaded.1)))
  {
    var requests := ReadRequests(input);
    if requests.None? {
      return Thrown;
    }
    outcome := LoadRequests(catalogue, requests.value.0, requests.value.1, parseDouble, unsetFlag);
  }
}
