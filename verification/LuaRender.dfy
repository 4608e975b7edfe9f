/**
 * Lua cell primitives of the Halo display link
 * (crates/sim-lib-stream-halo/src/lua_render.rs).
 *
 * Primitives are modelled as strings: every character printed is ASCII
 * (PrimitiveIsAscii), so characters and bytes coincide.  A Dafny `char` ranges
 * over the same Unicode scalar values as a Rust `char`.
 */
module LuaRender {
  import opened Wrappers
  import opened Machine
  import opened Decimal
  import opened Strings
  import opened Sequences

  datatype LuaRegion = Title | MetricLabel | MetricValue | ActionLabel | Urgency | Warrant {
    /** The region's name on the wire. */
    function Token(): string {
      match this
      case Title => "title"
      case MetricLabel => "metric_label"
      case MetricValue => "metric_value"
      case ActionLabel => "action_label"
      case Urgency => "urgency"
      case Warrant => "warrant"
    }

    /** Position in declaration order, which is the derived ordering. */
    function Ordinal(): (n: nat)
      ensures n < 6
    {
      match this
      case Title => 0
      case MetricLabel => 1
      case MetricValue => 2
      case ActionLabel => 3
      case Urgency => 4
      case Warrant => 5
    }
  }

  datatype LuaCellPriority = WarrantFirst | Urgent | Normal {
    function Ordinal(): (n: nat)
      ensures n < 3
    {
      match this
      case WarrantFirst => 0
      case Urgent => 1
      case Normal => 2
    }
  }

  /** Address of one glyph cell. */
  datatype CellKey = CellKey(region: LuaRegion, index: u16)

  /** One changed glyph, or a cleared cell when `glyph` is None. */
  datatype LuaCell = LuaCell(key: CellKey, glyph: Option<char>, priority: LuaCellPriority) {

    function GlyphText(): string {
      match glyph
      case Some(g) => Digits(g as int)
      case None => "nil"
    }

    /** The Lua line that sets or clears this cell. */
    function Primitive(): string {
      HEAD + (key.region.Token() + ("\"" + ("," + (Digits(key.index) + ("," + (GlyphText() + TAIL))))))
    }

    function ByteLen(): u32 {
      if |Primitive()| <= U32_MAX then |Primitive()| else U32_MAX
    }
  }

  const HEAD := "sim.set_cell(\""
  const TAIL := ")\n"

  ghost function Printer(): LuaCell -> string {
    (c: LuaCell) => c.Primitive()
  }

  ghost function Lines(cells: seq<LuaCell>): seq<string> {
    Print(Printer(), cells)
  }

  /** The frame the cells encode to, as a specification. */
  ghost function Frame(cells: seq<LuaCell>): string {
    Flatten(Lines(cells))
  }

  /** Prints the cells line by line. */
  method EncodeLuaCells(cells: seq<LuaCell>) returns (bytes: string)
    ensures bytes == Frame(cells)
  {
    bytes := "";
    for i := 0 to |cells|
      invariant bytes == Frame(cells[..i])
    {
      PrintTakeNext(Printer(), cells, i);
      bytes := bytes + cells[i].Primitive();
    }
    assert cells[..|cells|] == cells;
  }

  // ---------------------------------------------------------------- lengths

  /** Every primitive takes between 26 and 43 bytes, so `byte_len` is exact. */
  lemma PrimitiveLength(c: LuaCell)
    ensures 26 <= |c.Primitive()| <= 43
    ensures c.ByteLen() == |c.Primitive()|
  {
    assert Pow10(5) == 100000 && Pow10(7) == 10000000;
    DigitsLength(c.key.index, 5);
    if c.glyph.Some? {
      DigitsLength(c.glyph.value as int, 7);
    }
  }

  ghost predicate Ascii(s: string) {
    forall i :: 0 <= i < |s| ==> s[i] as int < 128
  }

  lemma PrimitiveIsAscii(c: LuaCell)
    ensures Ascii(c.Primitive())
  {
    DigitsDenote(c.key.index);
    if c.glyph.Some? {
      DigitsDenote(c.glyph.value as int);
    }
    assert Ascii(c.key.region.Token());
    assert Ascii(c.GlyphText());
  }

  /** The size the scheduler charges for a cell. */
  ghost function SizeOf(): LuaCell -> nat {
    (c: LuaCell) => c.ByteLen()
  }

  /** The frame is exactly as long as the byte lengths of its cells add up to. */
  lemma {:induction false} FrameLength(cells: seq<LuaCell>)
    ensures |Frame(cells)| == Total(SizeOf(), cells)
  {
    if cells != [] {
      FrameHead(cells);
      PrimitiveLength(cells[0]);
      FrameLength(cells[1..]);
    }
  }

  lemma FrameHead(cells: seq<LuaCell>)
    requires cells != []
    ensures Frame(cells) == Lines(cells)[0] + Frame(cells[1..])
    ensures Lines(cells)[0] == cells[0].Primitive()
  {
    FlattenHead(Lines(cells));
    assert Lines(cells)[1..] == Lines(cells[1..]);
  }

  lemma FrameConcat(a: seq<LuaCell>, b: seq<LuaCell>)
    ensures Frame(a + b) == Frame(a) + Frame(b)
  {
    PrintConcat(Printer(), a, b);
  }

  // ---------------------------------------------------------------- reading a frame back

  /** What one Lua line asks the display to do. */
  datatype Update = Update(key: CellKey, glyph: Option<char>)

  function UpdateOf(c: LuaCell): Update {
    Update(c.key, c.glyph)
  }

  ghost function Updates(cells: seq<LuaCell>): seq<Update> {
    seq(|cells|, i requires 0 <= i < |cells| => UpdateOf(cells[i]))
  }

  /** Drops a required prefix. */
  function Expect(prefix: string, s: string): Option<string> {
    if prefix <= s then Some(s[|prefix|..]) else None
  }

  /** Splits `s` at its first quotation mark, which is dropped. */
  function TakeQuoted(s: string): Option<(string, string)> {
    if s == "" then None
    else if s[0] == '"' then Some(("", s[1..]))
    else
      var (word, rest) :- TakeQuoted(s[1..]);
      Some(([s[0]] + word, rest))
  }

  function RegionOf(token: string): Option<LuaRegion> {
    if token == "title" then Some(Title)
    else if token == "metric_label" then Some(MetricLabel)
    else if token == "metric_value" then Some(MetricValue)
    else if token == "action_label" then Some(ActionLabel)
    else if token == "urgency" then Some(Urgency)
    else if token == "warrant" then Some(Warrant)
    else None
  }

  /** Is `n` a Unicode scalar value? */
  predicate IsScalar(n: nat) {
    n < 0xD800 || 0xE000 <= n < 0x11_0000
  }

  /** Reads a glyph argument: `nil` or a decimal code point. */
  function TakeGlyph(s: string): Option<(Option<char>, string)> {
    if "nil" <= s then Some((None, s[3..]))
    else
      var (n, rest) :- TakeNat(s);
      if IsScalar(n) then Some((Some(n as char), rest)) else None
  }

  /** Reads a quoted region and an index, each with the comma after it. */
  function ParseKey(s: string): Option<(CellKey, string)> {
    var (token, s1) :- TakeQuoted(s);
    var region :- RegionOf(token);
    var s2 :- Expect(",", s1);
    var (index, s3) :- TakeNat(s2);
    var s4 :- Expect(",", s3);
    if index <= U16_MAX then Some((CellKey(region, index), s4)) else None
  }

  /** What the display takes as the start and the end of a line. */
  const COMMAND := "sim.set_cell(\""
  const LINE_END := ")\n"

  /** Reads one line of the protocol. */
  function ParseLine(s: string): Option<(Update, string)> {
    var s1 :- Expect(COMMAND, s);
    var (key, s2) :- ParseKey(s1);
    var (glyph, s3) :- TakeGlyph(s2);
    var s4 :- Expect(LINE_END, s3);
    Some((Update(key, glyph), s4))
  }

  lemma {:induction false} TakeQuotedShrinks(s: string)
    ensures TakeQuoted(s).Some? ==> |TakeQuoted(s).value.1| < |s|
  {
    if s != "" && s[0] != '"' {
      TakeQuotedShrinks(s[1..]);
    }
  }

  lemma ParseLineShrinks(s: string)
    ensures ParseLine(s).Some? ==> |ParseLine(s).value.1| < |s|
  {
    if ParseLine(s).Some? {
      TakeQuotedShrinks(Expect(COMMAND, s).value);
    }
  }

  /** Reads a whole frame, line by line. */
  function Parse(s: string): Option<seq<Update>>
    decreases |s|
  {
    if s == "" then Some([])
    else
      var (update, rest) :- ParseLine(s);
      ParseLineShrinks(s);
      var updates :- Parse(rest);
      Some([update] + updates)
  }

  lemma ExpectInverts(prefix: string, rest: string)
    ensures Expect(prefix, prefix + rest) == Some(rest)
  {
    assert (prefix + rest)[|prefix|..] == rest;
  }

  lemma {:induction false} TakeQuotedInverts(word: string, rest: string)
    requires '"' !in word
    ensures TakeQuoted(word + ("\"" + rest)) == Some((word, rest))
  {
    var s := word + ("\"" + rest);
    if word == "" {
      assert s[1..] == rest;
    } else {
      assert s[1..] == word[1..] + ("\"" + rest);
      TakeQuotedInverts(word[1..], rest);
      assert [word[0]] + word[1..] == word;
    }
  }

  lemma TokenInverts(r: LuaRegion)
    ensures RegionOf(r.Token()) == Some(r) && '"' !in r.Token()
  {
  }

  lemma TakeGlyphInverts(c: LuaCell, rest: string)
    requires rest != "" && !IsDigit(rest[0])
    ensures TakeGlyph(c.GlyphText() + rest) == Some((c.glyph, rest))
  {
    var s := c.GlyphText() + rest;
    match c.glyph {
      case None =>
        assert s[3..] == rest;
      case Some(g) =>
        DigitsDenote(g as int);
        assert IsDigit(s[0]);
        TakeNatInvertsDigits(g as int, rest);
    }
  }

  lemma ParseKeyInverts(key: CellKey, rest: string)
    ensures ParseKey(key.region.Token() + ("\"" + ("," + (Digits(key.index) + ("," + rest))))) == Some((key, rest))
  {
    var s3 := "," + rest;
    var s2 := Digits(key.index) + s3;
    var s1 := "," + s2;
    TokenInverts(key.region);
    TakeQuotedInverts(key.region.Token(), s1);
    ExpectInverts(",", s2);
    TakeNatInvertsDigits(key.index, s3);
    ExpectInverts(",", rest);
  }

  lemma PrimitiveThen(c: LuaCell, rest: string)
    ensures c.Primitive() + rest
         == HEAD + (c.key.region.Token()
                    + ("\"" + ("," + (Digits(c.key.index) + ("," + (c.GlyphText() + (TAIL + rest)))))))
  {
  }

  /** One printed line reads back as its cell's update, whatever text follows. */
  lemma ParseLineInvertsPrimitive(c: LuaCell, rest: string)
    ensures ParseLine(c.Primitive() + rest) == Some((UpdateOf(c), rest))
  {
    var s3 := TAIL + rest;
    var s2 := c.GlyphText() + s3;
    var s1 := c.key.region.Token() + ("\"" + ("," + (Digits(c.key.index) + ("," + s2))));
    PrimitiveThen(c, rest);
    ExpectInverts(COMMAND, s1);
    ParseKeyInverts(c.key, s2);
    TakeGlyphInverts(c, s3);
    ExpectInverts(LINE_END, rest);
  }

  /** Reads `more` after `us`; unreadable when `more` is. */
  function Then(us: seq<Update>, more: Option<seq<Update>>): Option<seq<Update>> {
    match more
    case Some(vs) => Some(us + vs)
    case None => None
  }

  lemma ThenCons(u: Update, us: seq<Update>, more: Option<seq<Update>>)
    ensures Then([u], Then(us, more)) == Then([u] + us, more)
  {
    if more.Some? {
      assert [u] + (us + more.value) == [u] + us + more.value;
    }
  }

  lemma ThenNothing(more: Option<seq<Update>>)
    ensures Then([], more) == more
  {
    if more.Some? {
      assert [] + more.value == more.value;
    }
  }

  lemma ParsePrimitiveThen(c: LuaCell, rest: string)
    ensures Parse(c.Primitive() + rest) == Then([UpdateOf(c)], Parse(rest))
  {
    ParseLineInvertsPrimitive(c, rest);
    PrimitiveLength(c);
  }

  /** A reader that consumes each line as one update consumes all lines in order. */
  lemma {:induction false} ReadLines(
    read: string -> Option<seq<Update>>, lines: seq<string>, us: seq<Update>, rest: string)
    requires |lines| == |us|
    requires forall i, tail: string :: 0 <= i < |us| ==> read(lines[i] + tail) == Then([us[i]], read(tail))
    ensures read(Flatten(lines) + rest) == Then(us, read(rest))
  {
    if us == [] {
      assert Flatten(lines) + rest == rest;
      ThenNothing(read(rest));
    } else {
      var tail := Flatten(lines[1..]) + rest;
      FlattenHead(lines);
      assert Flatten(lines) + rest == lines[0] + tail;
      ReadLines(read, lines[1..], us[1..], rest);
      ThenCons(us[0], us[1..], read(rest));
      assert [us[0]] + us[1..] == us;
    }
  }

  /**
   * A printed frame followed by any text reads as the printed updates followed by
   * whatever that text reads as, and is unreadable exactly when that text is.
   */
  lemma ParseFrameThen(cells: seq<LuaCell>, rest: string)
    ensures Parse(Frame(cells) + rest) == Then(Updates(cells), Parse(rest))
  {
    forall i, tail: string | 0 <= i < |cells|
      ensures Parse(Lines(cells)[i] + tail) == Then([Updates(cells)[i]], Parse(tail))
    {
      ParsePrimitiveThen(cells[i], tail);
    }
    ReadLines(Parse, Lines(cells), Updates(cells), rest);
  }

  /** The parser inverts the printer on every list of cells. */
  lemma ParseInvertsEncode(cells: seq<LuaCell>)
    ensures Parse(Frame(cells)) == Some(Updates(cells))
  {
    ParseFrameThen(cells, "");
    assert Frame(cells) + "" == Frame(cells);
    assert Updates(cells) + [] == Updates(cells);
  }

  /** Frames are uniquely decodable: equal bytes mean equal updates, in order. */
  lemma FrameIsUniquelyDecodable(a: seq<LuaCell>, b: seq<LuaCell>)
    requires Frame(a) == Frame(b)
    ensures Updates(a) == Updates(b)
  {
    ParseInvertsEncode(a);
    ParseInvertsEncode(b);
  }
}
