/**
 * The SVG document model: colours, the text escaping of <text> content, the
 * trimming of that content, and a document that renders its objects in the
 * order they were added.
 */
module Svg {
  import opened Common

  /** uint8_t, the type of the Rgb/Rgba channels. */
  newtype byte = x: int | 0 <= x < 256

  /** svg::Color: std::monostate ("none"), a colour name, Rgb or Rgba. */
  datatype Color = NoColor | Named(name: string) | Rgb(red: byte, green: byte, blue: byte)
                 | Rgba(red: byte, green: byte, blue: byte, opacity: real)

  // ---------------------------------------------------------------------------
  // Text::DataShielding

  /** Characters DataShielding replaces by an entity reference. */
  predicate Special(c: char) {
    c == '"' || c == '`' || c == '\'' || c == '<' || c == '>' || c == '&'
  }

  /** Characters that never occur raw in shielded text (the ampersand does, as an entity start). */
  predicate Raw(c: char) {
    c == '"' || c == '`' || c == '\'' || c == '<' || c == '>'
  }

  /** What DataShielding writes for one character. */
  function ShieldChar(c: char): (r: string)
    ensures |r| >= 1 && forall k :: 0 <= k < |r| ==> !Raw(r[k])
    ensures r == [c] <==> !Special(c)
  {
    match c
    case '"' => "&quot;"
    case '`' => "&apos;"
    case '\'' => "&apos;"
    case '<' => "&lt;"
    case '>' => "&gt;"
    case '&' => "&amp;"
    case _ => [c]
  }

  /** The shielded text: every character replaced by its ShieldChar, in order. */
  function Shielded(s: string): string {
    if s == [] then [] else ShieldChar(s[0]) + Shielded(s[1..])
  }

  lemma {:induction false} ShieldedAppend(s: string, c: char)
    ensures Shielded(s + [c]) == Shielded(s) + ShieldChar(c)
  {
    if s == [] {
      assert [] + [c] == [c];
    } else {
      assert (s + [c])[1..] == s[1..] + [c];
      ShieldedAppend(s[1..], c);
    }
  }

  /** Text::DataShielding: the loop appending each character's replacement to the result. */
  method DataShielding(data: string) returns (result: string)
    ensures result == Shielded(data)
  {
    result := "";
    var i := 0;
    while i < |data|
      invariant i <= |data|
      invariant result == Shielded(data[..i])
    {
      var symbol := data[i];
      match symbol {
        case '"' => result := result + "&quot;";
        case '`' => result := result + "&apos;";
        case '\'' => result := result + "&apos;";
        case '<' => result := result + "&lt;";
        case '>' => result := result + "&gt;";
        case '&' => result := result + "&amp;";
        case _ => result := result + [symbol];
      }
      ShieldedAppend(data[..i], symbol);
      assert data[..i + 1] == data[..i] + [symbol];
      i := i + 1;
    }
    assert data[..i] == data;
  }

  /** Shielded text holds no raw quote, apostrophe, backtick or angle bracket. */
  lemma {:induction false} ShieldedHasNoRaw(s: string)
    ensures forall k :: 0 <= k < |Shielded(s)| ==> !Raw(Shielded(s)[k])
  {
    if s != [] {
      ShieldedHasNoRaw(s[1..]);
      var head, tail := ShieldChar(s[0]), Shielded(s[1..]);
      forall k | 0 <= k < |head + tail| ensures !Raw((head + tail)[k]) {
        if k >= |head| {
          assert (head + tail)[k] == tail[k - |head|];
        }
      }
    }
  }

  /** Shielding never shortens the text. */
  lemma {:induction false} ShieldedLonger(s: string)
    ensures |Shielded(s)| >= |s|
  {
    if s != [] {
      ShieldedLonger(s[1..]);
    }
  }

  /** Text without any of the six special characters comes back unchanged. */
  lemma {:induction false} ShieldedPlain(s: string)
    requires forall k :: 0 <= k < |s| ==> !Special(s[k])
    ensures Shielded(s) == s
  {
    if s != [] {
      ShieldedPlain(s[1..]);
      assert s == [s[0]] + s[1..];
    }
  }

  predicate StartsWith(s: string, prefix: string) {
    |prefix| <= |s| && s[..|prefix|] == prefix
  }

  /** The predefined entity of section 4.6 of XML 1.0 at the front of s: its character and length. */
  function EntityAt(s: string): (r: Option<(char, nat)>)
    ensures r.Some? ==> 1 <= r.value.1 <= |s|
  {
    if StartsWith(s, "&quot;") then Some(('"', 6))
    else if StartsWith(s, "&apos;") then Some(('\'', 6))
    else if StartsWith(s, "&lt;") then Some(('<', 4))
    else if StartsWith(s, "&gt;") then Some(('>', 4))
    else if StartsWith(s, "&amp;") then Some(('&', 5))
    else None
  }

  /**
   * The reading of XML character data: each of &quot; &apos; &lt; &gt; &amp;
   * stands for its character, every other character for itself.
   */
  function Unescaped(s: string): (r: string)
    ensures |r| <= |s|
  {
    if s == [] then []
    else if s[0] != '&' then [s[0]] + Unescaped(s[1..])
    else match EntityAt(s)
      case Some((ch, n)) => [ch] + Unescaped(s[n..])
      case None => [s[0]] + Unescaped(s[1..])
  }

  /** The character an XML reader sees for c after shielding: a backtick reads back as an apostrophe. */
  function ReadBack(c: char): char {
    if c == '`' then '\'' else c
  }

  function ReadBackAll(s: string): (r: string)
    ensures |r| == |s| && forall k :: 0 <= k < |s| ==> r[k] == ReadBack(s[k])
  {
    if s == [] then [] else [ReadBack(s[0])] + ReadBackAll(s[1..])
  }

  /** The entity DataShielding writes for a special character is read as that character (a backtick as an apostrophe). */
  lemma EntityAtShielded(c: char, rest: string)
    requires Special(c)
    ensures EntityAt(ShieldChar(c) + rest) == Some((ReadBack(c), |ShieldChar(c)|))
  {
    var e := ShieldChar(c);
    var s := e + rest;
    assert s[..|e|] == e;
    assert s[1] == e[1] && s[2] == e[2];
  }

  lemma UnescapedShieldChar(c: char, rest: string)
    ensures Unescaped(ShieldChar(c) + rest) == [ReadBack(c)] + Unescaped(rest)
  {
    var s := ShieldChar(c) + rest;
    if Special(c) {
      EntityAtShielded(c, rest);
      assert s[0] == '&' && s[|ShieldChar(c)|..] == rest;
    } else {
      assert s == [c] + rest && s[0] == c && s[1..] == rest;
    }
  }

  /**
   * Reading shielded text as XML gives the original text back, except that a
   * backtick comes back as an apostrophe (both are written as &apos;).
   */
  lemma {:induction false} ShieldedReadsBack(s: string)
    ensures Unescaped(Shielded(s)) == ReadBackAll(s)
  {
    if s != [] {
      UnescapedShieldChar(s[0], Shielded(s[1..]));
      ShieldedReadsBack(s[1..]);
    }
  }

  // ---------------------------------------------------------------------------
  // Text::RemoveSpaces

  predicate AllSpaces(s: string) {
    forall k :: 0 <= k < |s| ==> s[k] == ' '
  }

  /** find_first_not_of(' '): the index of the first non-space, or None for npos. */
  function FirstNonSpace(s: string): (r: Option<nat>)
    ensures r.None? <==> AllSpaces(s)
    ensures r.Some? ==> r.value < |s| && s[r.value] != ' ' && AllSpaces(s[..r.value])
  {
    if s == [] then None
    else if s[0] != ' ' then Some(0)
    else match FirstNonSpace(s[1..])
      case None => None
      case Some(i) => assert s[..i + 1] == [s[0]] + s[1..][..i]; Some(i + 1)
  }

  /** find_last_not_of(' '): the index of the last non-space, or None for npos. */
  function LastNonSpace(s: string): (r: Option<nat>)
    ensures r.None? <==> AllSpaces(s)
    ensures r.Some? ==> r.value < |s| && s[r.value] != ' ' && AllSpaces(s[r.value + 1..])
  {
    if s == [] then None
    else if s[|s| - 1] != ' ' then Some(|s| - 1)
    else match LastNonSpace(s[..|s| - 1])
      case None => None
      case Some(i) => assert s[i + 1..] == s[..|s| - 1][i + 1..] + [s[|s| - 1]]; Some(i)
  }

  /**
   * Text::RemoveSpaces: the text without its leading and trailing blanks;
   * None where the program throws, which is a non-empty all-blank text
   * (substr at npos is out of range).
   */
  function RemoveSpaces(data: string): (r: Option<string>)
    ensures r.None? <==> data != [] && AllSpaces(data)
    ensures r.Some? ==> exists i, j :: 0 <= i <= j <= |data| && r.value == data[i..j] &&
                          AllSpaces(data[..i]) && AllSpaces(data[j..])
    ensures r.Some? && r.value != [] ==> r.value[0] != ' ' && r.value[|r.value| - 1] != ' '
  {
    if data == [] then assert data[0..0] == [] && data[..0] == []; Some([])
    else match (FirstNonSpace(data), LastNonSpace(data))
      case (Some(left), Some(right)) =>
        if left <= right then Some(data[left..right + 1])
        else assert false; None
      case _ => None
  }

  /** Trimming an already trimmed text changes nothing. */
  lemma RemoveSpacesIdempotent(data: string)
    requires RemoveSpaces(data).Some?
    ensures RemoveSpaces(RemoveSpaces(data).value) == RemoveSpaces(data)
  {
    var t := RemoveSpaces(data).value;
    if t != [] {
      assert FirstNonSpace(t) == Some(0);
      assert LastNonSpace(t) == Some(|t| - 1);
      assert t[0..|t|] == t;
    }
  }

  /** Shielding maps blanks to blanks and every other character to non-blanks. */
  lemma {:induction false} ShieldedAllSpaces(s: string)
    ensures AllSpaces(Shielded(s)) <==> AllSpaces(s)
    ensures Shielded(s) == [] <==> s == []
  {
    if s != [] {
      ShieldedAllSpaces(s[1..]);
      var head, tail := ShieldChar(s[0]), Shielded(s[1..]);
      assert (head + tail)[0] == head[0];
      if AllSpaces(s) {
        assert s == [s[0]] + s[1..];
        assert AllSpaces(s[1..]);
      }
      if AllSpaces(head + tail) {
        forall k | 0 <= k < |tail| ensures tail[k] == ' ' {
          assert (head + tail)[|head| + k] == tail[k];
        }
      }
    }
  }

  /**
   * The content Text::RenderObject writes between <text ...> and </text>:
   * the shielded data, trimmed. Rendering throws exactly for a non-empty
   * all-blank data string.
   */
  function TextContent(data: string): (r: Option<string>)
    ensures r.None? <==> data != [] && AllSpaces(data)
    ensures r.Some? ==> forall k :: 0 <= k < |r.value| ==> !Raw(r.value[k])
  {
    ShieldedAllSpaces(data);
    ShieldedHasNoRaw(data);
    RemoveSpaces(Shielded(data))
  }

  // ---------------------------------------------------------------------------
  // Document

  datatype Point = Point(x: real, y: real)

  /** The drawable objects: their geometry and text (the stroke and fill attributes are not modelled). */
  datatype Object =
    | Circle(center: Point, radius: real)
    | Polyline(points: seq<Point>)
    | Text(position: Point, offset: Point, fontSize: nat, fontFamily: string, fontWeight: string, data: string)

  const Header: string := "<?xml version=\"1.0\" encoding=\"UTF-8\" ?>\n<svg xmlns=\"http://www.w3.org/2000/svg\" version=\"1.1\">\n"
  const Footer: string := "</svg>"

  /** Object::Render at indent 2: the indent, the object's markup, a line end. */
  function Line(markup: Object -> string, o: Object): string {
    "  " + markup(o) + "\n"
  }

  /** The lines of the objects, in the order of the sequence. */
  function Body(markup: Object -> string, objects: seq<Object>): string {
    if objects == [] then [] else Body(markup, objects[..|objects| - 1]) + Line(markup, objects[|objects| - 1])
  }

  /** Rendering a concatenation renders the first part, then the second. */
  lemma {:induction false} BodyConcat(markup: Object -> string, a: seq<Object>, b: seq<Object>)
    ensures Body(markup, a + b) == Body(markup, a) + Body(markup, b)
  {
    if b == [] {
      assert a + b == a;
    } else {
      var last := b[|b| - 1];
      assert (a + b)[..|a + b| - 1] == a + b[..|b| - 1];
      BodyConcat(markup, a, b[..|b| - 1]);
    }
  }

  /** The k-th object added is rendered right after the lines of the k objects before it. */
  lemma ObjectLineAt(markup: Object -> string, objects: seq<Object>, k: nat)
    requires k < |objects|
    ensures Body(markup, objects) ==
              Body(markup, objects[..k]) + Line(markup, objects[k]) + Body(markup, objects[k + 1..])
  {
    var front := objects[..k + 1];
    assert objects == front + objects[k + 1..];
    BodyConcat(markup, front, objects[k + 1..]);
    assert front[..|front| - 1] == objects[..k] && front[|front| - 1] == objects[k];
  }

  /**
   * svg::Document. RenderObject formats doubles and the object's attributes;
   * the model takes that formatting as the function `markup`.
   */
  class Document {
    var objects: seq<Object>

    constructor ()
      ensures objects == []
    {
      objects := [];
    }

    /** Document::AddPtr: the object goes after every object added before. */
    method AddPtr(obj: Object)
      modifies this
      ensures objects == old(objects) + [obj]
    {
      objects := objects + [obj];
    }

    /** Document::Render: the two header lines, one line per object in order, then </svg>. */
    method Render(markup: Object -> string) returns (out: string)
      ensures out == Header + Body(markup, objects) + Footer
    {
      out := Header;
      var i := 0;
      while i < |objects|
        invariant i <= |objects|
        invariant out == Header + Body(markup, objects[..i])
      {
        assert objects[..i + 1][..i] == objects[..i];
        out := out + "  " + markup(objects[i]) + "\n";
        i := i + 1;
      }
      assert objects[..i] == objects;
      out := out + Footer;
    }
  }

  /** Adding an object extends the rendered document by exactly that object's line before </svg>. */
  lemma AddedObjectRendersLast(markup: Object -> string, objects: seq<Object>, obj: Object)
    ensures Header + Body(markup, objects + [obj]) + Footer ==
              Header + Body(markup, objects) + Line(markup, obj) + Footer
  {
    assert (objects + [obj])[..|objects|] == objects;
  }
}
