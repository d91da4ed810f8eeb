/** The SGR mouse report: its encoder, and a decoder that shows what the report preserves. */
module Mouse {
  import opened Prelude
  import Decimal
  import Keys
  import Utf8

  datatype Button = LeftButton | MiddleButton | RightButton

  datatype Kind =
    | Down(button: Button)
    | Up(button: Button)
    | Drag(button: Button)
    | ScrollUp
    | ScrollDown
    | ScrollLeft
    | ScrollRight
    | Moved

  /** A `u16`. */
  type U16 = n: nat | n <= Decimal.U16_MAX

  datatype MouseEvent = MouseEvent(kind: Kind, column: U16, row: U16, mods: Keys.Modifiers)

  function ButtonIndex(b: Button): nat {
    match b
    case LeftButton => 0
    case MiddleButton => 1
    case RightButton => 2
  }

  /** The code of the event without modifiers; `None` for events that are not reported. */
  function Base(kind: Kind): Option<nat> {
    match kind
    case Down(b) => Some(ButtonIndex(b))
    case Up(_) => Some(3)
    case Drag(b) => Some(32 + ButtonIndex(b))
    case ScrollUp => Some(64)
    case ScrollDown => Some(65)
    case ScrollLeft | ScrollRight | Moved => None
  }

  function ModifierCode(mods: Keys.Modifiers): nat {
    (if mods.shift then 4 else 0) + (if mods.alt then 8 else 0) + (if mods.ctrl then 16 else 0)
  }

  /** `column + 1` in 16 bits. */
  function OneBased(n: U16): U16 {
    (n + 1) % 65536
  }

  const INTRODUCER: string := ['\U{1b}', '[', '<']

  function ReportText(code: nat, x: nat, y: nat, release: bool): string {
    INTRODUCER + Decimal.Print(code) + [';'] + Decimal.Print(x) + [';'] + Decimal.Print(y)
    + [if release then 'm' else 'M']
  }

  /** The report of an event: the base code and the modifier bits simply add up. */
  function Report(e: MouseEvent, sgrMouse: bool): seq<Byte> {
    if !sgrMouse || Base(e.kind).None? then []
    else
      Utf8.Encode(ReportText(Base(e.kind).value + ModifierCode(e.mods), OneBased(e.column), OneBased(e.row),
                             e.kind.Up?))
  }

  function BaseBits(kind: Kind): (bits: Option<bv8>)
    ensures bits.Some? <==> Base(kind).Some?
    ensures bits.Some? ==> bits.value as nat == Base(kind).value && bits.value in [0, 1, 2, 3, 32, 33, 34, 64, 65]
  {
    match kind
    case Down(LeftButton) => Some(0)
    case Down(MiddleButton) => Some(1)
    case Down(RightButton) => Some(2)
    case Up(_) => Some(3)
    case Drag(LeftButton) => Some(32)
    case Drag(MiddleButton) => Some(33)
    case Drag(RightButton) => Some(34)
    case ScrollUp => Some(64)
    case ScrollDown => Some(65)
    case ScrollLeft | ScrollRight | Moved => None
  }

  method AddModifiers(base: bv8, mods: Keys.Modifiers) returns (btn: bv8)
    requires base in [0, 1, 2, 3, 32, 33, 34, 64, 65]
    ensures btn as nat == base as nat + ModifierCode(mods)
  {
    btn := base;
    if mods.shift {
      btn := btn | 4;
    }
    if mods.alt {
      btn := btn | 8;
    }
    if mods.ctrl {
      btn := btn | 16;
    }
    BitsAddUp(base, mods.shift, mods.alt, mods.ctrl);
  }

  /** The encoder ORs the modifier bits into the base code; they never collide with it or each other. */
  method EncodeMouse(e: MouseEvent, sgrMouse: bool) returns (bytes: seq<Byte>)
    ensures bytes == Report(e, sgrMouse)
  {
    var base := BaseBits(e.kind);
    if !sgrMouse || base.None? {
      return [];
    }
    var btn := AddModifiers(base.value, e.mods);
    bytes := Utf8.Encode(ReportText(btn as nat, OneBased(e.column), OneBased(e.row), e.kind.Up?));
  }

  lemma BitsAddUp(base: bv8, shift: bool, alt: bool, ctrl: bool)
    requires base in [0, 1, 2, 3, 32, 33, 34, 64, 65]
    ensures var b1 := if shift then base | 4 else base;
            var b2 := if alt then b1 | 8 else b1;
            var b3 := if ctrl then b2 | 16 else b2;
            b3 as nat == base as nat + (if shift then 4 else 0) + (if alt then 8 else 0) + (if ctrl then 16 else 0)
  {
  }

  // ---- reading a report back --------------------------------------------------------------------

  /** What a report says of the event: not which button was released, and no modifiers but three. */
  function Reportable(e: MouseEvent): MouseEvent {
    e.(kind := if e.kind.Up? then Up(LeftButton) else e.kind, mods := e.mods.(others := false))
  }

  function KindOf(base: nat, release: bool): Option<Kind> {
    if release then if base == 3 then Some(Up(LeftButton)) else None
    else
      match base
      case 0 => Some(Down(LeftButton))
      case 1 => Some(Down(MiddleButton))
      case 2 => Some(Down(RightButton))
      case 32 => Some(Drag(LeftButton))
      case 33 => Some(Drag(MiddleButton))
      case 34 => Some(Drag(RightButton))
      case 64 => Some(ScrollUp)
      case 65 => Some(ScrollDown)
      case _ => None
  }

  function Decode(code: nat, x: nat, y: nat, release: bool): Option<MouseEvent> {
    var mods := Keys.Modifiers(code / 4 % 2 == 1, code / 8 % 2 == 1, code / 16 % 2 == 1, false);
    match KindOf(code / 32 * 32 + code % 4, release)
    case None => None
    case Some(kind) =>
      if 1 <= x <= 65536 && 1 <= y <= 65536 then Some(MouseEvent(kind, x - 1, y - 1, mods)) else None
  }

  /** A number and the semicolon behind it; what follows both. */
  function ReadField(s: string): Option<(nat, string)> {
    var (n, rest) := Decimal.ReadNumber(s);
    if rest != [] && rest[0] == ';' then Some((n, rest[1..])) else None
  }

  /** The last number and the final letter. */
  function ReadFinal(s: string): Option<(nat, bool)> {
    var (n, rest) := Decimal.ReadNumber(s);
    if rest == ['M'] then Some((n, false)) else if rest == ['m'] then Some((n, true)) else None
  }

  function ReadRow(code: nat, x: nat, s: string): Option<MouseEvent> {
    match ReadFinal(s)
    case None => None
    case Some((y, release)) => Decode(code, x, y, release)
  }

  function ReadPosition(code: nat, s: string): Option<MouseEvent> {
    match ReadField(s)
    case None => None
    case Some((x, rest)) => ReadRow(code, x, rest)
  }

  function ReadText(s: string): Option<MouseEvent> {
    match ReadField(s)
    case None => None
    case Some((code, rest)) => ReadPosition(code, rest)
  }

  function ReadReport(bytes: seq<Byte>): Option<MouseEvent> {
    match Utf8.Decode(bytes)
    case None => None
    case Some(text) => if INTRODUCER <= text then ReadText(text[|INTRODUCER|..]) else None
  }

  lemma ReadPrintedField(n: nat, rest: string)
    ensures ReadField(Decimal.Print(n) + ([';'] + rest)) == Some((n, rest))
  {
    Decimal.ReadPrinted(n, [';'] + rest);
    assert ([';'] + rest)[1..] == rest;
  }

  lemma ReadIntroduced(s: string)
    ensures ReadReport(Utf8.Encode(INTRODUCER + s)) == ReadText(s)
  {
    Utf8.DecodeOfEncode(INTRODUCER + s);
    assert (INTRODUCER + s)[|INTRODUCER|..] == s;
  }

  lemma ReadPrintedRow(code: nat, x: nat, y: nat, release: bool)
    ensures ReadRow(code, x, Decimal.Print(y) + [if release then 'm' else 'M']) == Decode(code, x, y, release)
  {
    Decimal.ReadPrinted(y, [if release then 'm' else 'M']);
  }

  lemma ReadReportText(code: nat, x: nat, y: nat, release: bool)
    ensures ReadReport(Utf8.Encode(ReportText(code, x, y, release))) == Decode(code, x, y, release)
  {
    var row := Decimal.Print(y) + [if release then 'm' else 'M'];
    var position := Decimal.Print(x) + ([';'] + row);
    var text := Decimal.Print(code) + ([';'] + position);
    assert ReportText(code, x, y, release) == INTRODUCER + text;
    ReadIntroduced(text);
    assert ReadText(text) == ReadPosition(code, position) by {
      ReadPrintedField(code, position);
    }
    assert ReadPosition(code, position) == ReadRow(code, x, row) by {
      ReadPrintedField(x, row);
    }
    ReadPrintedRow(code, x, y, release);
  }

  lemma Halved(half: nat, bit: nat)
    requires bit <= 1
    ensures (2 * half + bit) % 2 == bit
  {
  }

  lemma Quartered(quarter: nat, low: nat)
    requires low < 4
    ensures (4 * quarter + low) / 4 == quarter && (4 * quarter + low) % 4 == low
  {
  }

  /** The base code and the three modifiers can be told apart in their sum. */
  lemma CodeParts(quarter: nat, low: nat, shift: nat, alt: nat, ctrl: nat)
    requires low < 4 && shift <= 1 && alt <= 1 && ctrl <= 1
    ensures var code := 32 * quarter + low + 4 * shift + 8 * alt + 16 * ctrl;
            code / 32 == quarter && code % 4 == low
            && code / 4 % 2 == shift && code / 8 % 2 == alt && code / 16 % 2 == ctrl
  {
    var code := 32 * quarter + low + 4 * shift + 8 * alt + 16 * ctrl;
    Quartered(8 * quarter + shift + 2 * alt + 4 * ctrl, low);
    Halved(4 * quarter + alt + 2 * ctrl, shift);
    assert code / 8 == 4 * quarter + alt + 2 * ctrl;
    Halved(2 * quarter + ctrl, alt);
    assert code / 16 == 2 * quarter + ctrl;
    Halved(quarter, ctrl);
  }

  lemma KindOfBase(kind: Kind)
    requires Base(kind).Some?
    ensures Base(kind).value % 32 < 4
    ensures KindOf(Base(kind).value, kind.Up?) == Some(if kind.Up? then Up(LeftButton) else kind)
  {
  }

  /** Base code and modifiers are found in the code again. */
  lemma CodeReads(kind: Kind, mods: Keys.Modifiers)
    requires Base(kind).Some?
    ensures var code := Base(kind).value + ModifierCode(mods);
            && code / 32 * 32 + code % 4 == Base(kind).value
            && (code / 4 % 2 == 1 <==> mods.shift)
            && (code / 8 % 2 == 1 <==> mods.alt)
            && (code / 16 % 2 == 1 <==> mods.ctrl)
  {
    var base := Base(kind).value;
    KindOfBase(kind);
    var quarter, low := base / 32, base % 32;
    assert base == 32 * quarter + low;
    CodeParts(quarter, low, if mods.shift then 1 else 0, if mods.alt then 1 else 0, if mods.ctrl then 1 else 0);
  }

  /** What decoding makes of the numbers of a report. */
  lemma DecodeOfCode(kind: Kind, mods: Keys.Modifiers, x: nat, y: nat)
    requires Base(kind).Some? && x <= 65536 && y <= 65536
    ensures Decode(Base(kind).value + ModifierCode(mods), x, y, kind.Up?)
         == if x == 0 || y == 0 then None
            else Some(Reportable(MouseEvent(kind, x - 1, y - 1, mods)))
  {
    CodeReads(kind, mods);
    KindOfBase(kind);
  }

  lemma OneBasedIs(n: U16)
    ensures OneBased(n) == if n == 65535 then 0 else n + 1
  {
  }

  lemma ReportIs(e: MouseEvent)
    requires Base(e.kind).Some?
    ensures Report(e, true)
         == Utf8.Encode(ReportText(Base(e.kind).value + ModifierCode(e.mods), OneBased(e.column), OneBased(e.row),
                                   e.kind.Up?))
  {
  }

  lemma ReadReportOf(e: MouseEvent)
    requires Base(e.kind).Some?
    ensures ReadReport(Report(e, true))
         == Decode(Base(e.kind).value + ModifierCode(e.mods), OneBased(e.column), OneBased(e.row), e.kind.Up?)
  {
    ReportIs(e);
    ReadReportText(Base(e.kind).value + ModifierCode(e.mods), OneBased(e.column), OneBased(e.row), e.kind.Up?);
  }

  lemma DecodeOfEvent(e: MouseEvent)
    requires Base(e.kind).Some?
    ensures Decode(Base(e.kind).value + ModifierCode(e.mods), OneBased(e.column), OneBased(e.row), e.kind.Up?)
         == if e.column == 65535 || e.row == 65535 then None else Some(Reportable(e))
  {
    OneBasedIs(e.column);
    OneBasedIs(e.row);
    DecodeOfCode(e.kind, e.mods, OneBased(e.column), OneBased(e.row));
  }

  /**
   A report is read back as the event it reports exactly when neither coordinate is the largest `u16`,
   for which adding one wraps to zero; then it is not read back at all.
   */
  lemma MouseRoundTrip(e: MouseEvent)
    requires Base(e.kind).Some?
    ensures ReadReport(Report(e, true)) == if e.column < 65535 && e.row < 65535 then Some(Reportable(e)) else None
  {
    ReadReportOf(e);
    DecodeOfEvent(e);
  }

  /** All is reported but horizontal scrolling and mere movement, and nothing unless the remote asked for it. */
  lemma ReportedIff(e: MouseEvent, sgrMouse: bool)
    ensures Report(e, sgrMouse) != []
       <==> sgrMouse && !e.kind.ScrollLeft? && !e.kind.ScrollRight? && !e.kind.Moved?
  {
    if sgrMouse && Base(e.kind).Some? {
      Utf8.EmptyEncoding(ReportText(Base(e.kind).value + ModifierCode(e.mods), OneBased(e.column), OneBased(e.row),
                                    e.kind.Up?));
    }
  }
}
