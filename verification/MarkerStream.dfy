/**
 The other direction: printing shell-integration markers and working directories the way shells do, and
 the proof that the scanner reads back exactly what was printed.
 */
module MarkerStream {
  import opened Prelude
  import opened Osc
  import OscGrammar
  import FileUrl
  import opened UrlGrammar
  import Utf8

  datatype Item =
    | Text(bytes: seq<Byte>)
    | Marker(letter: Byte, parameters: seq<Byte>, st: bool)
    | Directory(host: seq<Byte>, path: seq<Piece>, st: bool)
    | Other(payload: seq<Byte>, st: bool)

  function Terminator(st: bool): seq<Byte> {
    if st then [ESC, BACKSLASH] else [BEL]
  }

  function Payload(item: Item): seq<Byte>
    requires !item.Text?
  {
    match item
    case Marker(letter, parameters, _) => MARKER_PREFIX + [letter] + parameters
    case Directory(host, path, _) => CWD_PREFIX + (FileUrl.FILE_SCHEME + host + PrintPath(path))
    case Other(payload, _) => payload
  }

  function Print(item: Item): seq<Byte> {
    if item.Text? then item.bytes else [ESC, BRACKET] + Payload(item) + Terminator(item.st)
  }

  function PrintAll(items: seq<Item>): seq<Byte> {
    if items == [] then [] else Print(items[0]) + PrintAll(items[1..])
  }

  predicate IsGraphicAscii(b: Byte) {
    0x20 <= b < 0x7f
  }

  predicate AllGraphic(s: seq<Byte>) {
    forall i :: 0 <= i < |s| ==> IsGraphicAscii(s[i])
  }

  predicate GoodPiece(p: Piece) {
    IsPlain(p) && (p.Raw? ==> IsGraphicAscii(p.b))
  }

  /** A host and an absolute path whose pieces are escaped where they must be. */
  predicate GoodUrl(host: seq<Byte>, path: seq<Piece>) {
    && AllGraphic(host) && FileUrl.SLASH !in host
    && path != [] && path[0] == Raw(FileUrl.SLASH)
    && forall p | p in path :: GoodPiece(p)
  }

  /**
   Sequences that announce nothing: those for something else, such as window titles; markers without one of
   the four letters; and directories that cannot be read.
   */
  ghost predicate IsSilent(payload: seq<Byte>) {
    || !([0x37, 0x3b] <= payload || [0x31, 0x33, 0x33, 0x3b] <= payload)
    || ([0x31, 0x33, 0x33, 0x3b] <= payload && (|payload| == 4 || !(0x41 <= payload[4] <= 0x44)))
    || ([0x37, 0x3b] <= payload && |payload| <= PAYLOAD_CAP.value && IsUnreadable(payload[2..]))
  }

  /** What a shell may print: an absolute path, percent-escaped where it must be, within the buffer. */
  ghost predicate GoodItem(item: Item) {
    match item
    case Text(bytes) => ESC !in bytes
    case Marker(letter, parameters, _) => 0x41 <= letter <= 0x44 && BEL !in parameters && ESC !in parameters
    case Directory(host, path, _) => GoodUrl(host, path) && |Payload(item)| <= PAYLOAD_CAP.value
    case Other(payload, _) => BEL !in payload && ESC !in payload && IsSilent(payload)
  }

  function EventOf(item: Item): seq<OscEvent> {
    match item
    case Text(_) => []
    case Marker(letter, _, _) =>
      if letter == 0x41 then [PromptStart]
      else if letter == 0x42 then [PromptEnd]
      else if letter == 0x43 then [CommandStart]
      else [CommandEnd]
    case Directory(_, path, _) => [Cwd(FileUrl.Latin1(PathBytes(path)))]
    case Other(_, _) => []
  }

  function EventsOf(items: seq<Item>): seq<OscEvent> {
    if items == [] then [] else EventOf(items[0]) + EventsOf(items[1..])
  }

  lemma {:induction false} AsciiDecodes(b: seq<Byte>)
    requires forall i :: 0 <= i < |b| ==> b[i] < 0x80
    ensures Utf8.Decode(b).Some?
  {
    if b != [] {
      AsciiDecodes(b[1..]);
    }
  }

  lemma GoodIsPlain(path: seq<Piece>)
    requires forall p | p in path :: GoodPiece(p)
    ensures AllPlain(path)
  {
    forall i | 0 <= i < |path|
      ensures IsPlain(path[i])
    {
      assert GoodPiece(path[i]);
    }
  }

  lemma {:induction false} PrintedPathIsGraphic(path: seq<Piece>)
    requires forall p | p in path :: GoodPiece(p)
    ensures AllGraphic(PrintPath(path))
  {
    if path != [] {
      PrintedPathIsGraphic(path[1..]);
      assert GoodPiece(path[0]);
      assert AllGraphic(PrintPiece(path[0]));
    }
  }

  lemma UrlIsGraphic(host: seq<Byte>, path: seq<Piece>)
    requires AllGraphic(host) && forall p | p in path :: GoodPiece(p)
    ensures AllGraphic(FileUrl.FILE_SCHEME + host + PrintPath(path))
  {
    PrintedPathIsGraphic(path);
    assert AllGraphic(FileUrl.FILE_SCHEME + host);
  }

  lemma FilePathOf(url: seq<Byte>, part: seq<Byte>, raw: seq<Byte>)
    requires AllGraphic(url) && FileUrl.PathPart(url) == Some(part) && FileUrl.Unescape(part) == Some(raw) && raw != []
    ensures FileUrl.FilePath(url) == Some(FileUrl.Latin1(raw))
  {
    AsciiDecodes(url);
  }

  lemma UrlRoundTrip(host: seq<Byte>, path: seq<Piece>)
    requires AllGraphic(host) && FileUrl.SLASH !in host
    requires path != [] && path[0] == Raw(FileUrl.SLASH)
    requires forall p | p in path :: GoodPiece(p)
    ensures FileUrl.FilePath(FileUrl.FILE_SCHEME + host + PrintPath(path)) == Some(FileUrl.Latin1(PathBytes(path)))
  {
    UrlIsGraphic(host, path);
    assert PrintPath(path)[0] == FileUrl.SLASH;
    UrlPathPart(host, PrintPath(path));
    GoodIsPlain(path);
    UnescapeInvertsPrinting(path);
    FilePathOf(FileUrl.FILE_SCHEME + host + PrintPath(path), PrintPath(path), PathBytes(path));
  }

  lemma CwdDispatches(url: seq<Byte>, path: string)
    requires FileUrl.FilePath(url) == Some(path)
    ensures Dispatch(CWD_PREFIX + url) == [Cwd(path)]
  {
    assert (CWD_PREFIX + url)[|CWD_PREFIX|..] == url;
  }

  lemma DirectoryIsQuiet(item: Item)
    requires item.Directory? && GoodUrl(item.host, item.path)
    ensures BEL !in Payload(item) && ESC !in Payload(item)
  {
    UrlIsGraphic(item.host, item.path);
    var url := FileUrl.FILE_SCHEME + item.host + PrintPath(item.path);
    assert AllGraphic(CWD_PREFIX + url);
  }

  lemma DirectoryDispatches(item: Item)
    requires item.Directory? && GoodItem(item)
    ensures Dispatch(Payload(item)) == EventOf(item)
  {
    UrlRoundTrip(item.host, item.path);
    var url := FileUrl.FILE_SCHEME + item.host + PrintPath(item.path);
    CwdDispatches(url, FileUrl.Latin1(PathBytes(item.path)));
  }

  lemma MarkerDispatches(item: Item, payload: seq<Byte>)
    requires item.Marker? && GoodItem(item)
    requires payload == OscGrammar.Capped(PAYLOAD_CAP, Payload(item))
    ensures Dispatch(payload) == EventOf(item)
    ensures BEL !in Payload(item) && ESC !in Payload(item)
  {
    assert payload[..5] == Payload(item)[..5] == MARKER_PREFIX + [item.letter];
    assert payload[0] == 0x31 && payload[4] == item.letter;
    assert payload[..4] == MARKER_PREFIX;
  }

  /** What fits the buffer of a silent payload announces nothing. */
  lemma SilentDispatches(payload: seq<Byte>)
    requires IsSilent(payload)
    ensures Dispatch(OscGrammar.Capped(PAYLOAD_CAP, payload)) == []
  {
    var kept := OscGrammar.Capped(PAYLOAD_CAP, payload);
    assert CWD_PREFIX == [0x37, 0x3b] && MARKER_PREFIX == [0x31, 0x33, 0x33, 0x3b];
    assert kept == payload || (|kept| == 4096 && kept == payload[..4096]);
    assert CWD_PREFIX <= kept <==> CWD_PREFIX <= payload;
    assert MARKER_PREFIX <= kept <==> MARKER_PREFIX <= payload;
    if CWD_PREFIX <= payload {
      assert payload[0] == 0x37 && !(MARKER_PREFIX <= payload);
      UnreadableIff(payload[2..]);
    } else if MARKER_PREFIX <= payload {
      assert |kept| > 4 ==> kept[4] == payload[4];
    }
  }

  /** In particular: an OSC for anything else, such as a window title, yields no event and leaves no trace. */
  lemma OtherSequencesAreSilent(payload: seq<Byte>, st: bool)
    requires BEL !in payload && ESC !in payload
    requires !([0x37, 0x3b] <= payload) && !([0x31, 0x33, 0x33, 0x3b] <= payload)
    ensures Run(PAYLOAD_CAP, INITIAL, [ESC, BRACKET] + payload + Terminator(st)) == (INITIAL, [])
  {
    SilentDispatches(payload);
    OscRoundTrip(payload, st);
  }

  /** One printed item, read from the initial state, yields its event and returns to the initial state. */
  lemma ItemRoundTrip(item: Item)
    requires GoodItem(item)
    ensures Run(PAYLOAD_CAP, INITIAL, Print(item)) == (INITIAL, EventOf(item))
  {
    if item.Text? {
      OscGrammar.SkipsPlain(PAYLOAD_CAP, item.bytes);
    } else {
      var payload := Payload(item);
      var kept := OscGrammar.Capped(PAYLOAD_CAP, payload);
      if item.Other? {
        SilentDispatches(payload);
      } else if item.Marker? {
        MarkerDispatches(item, kept);
      } else {
        DirectoryDispatches(item);
        DirectoryIsQuiet(item);
      }
      OscRoundTrip(payload, item.st);
    }
  }

  lemma OscRoundTrip(payload: seq<Byte>, st: bool)
    requires BEL !in payload && ESC !in payload
    ensures Run(PAYLOAD_CAP, INITIAL, [ESC, BRACKET] + payload + Terminator(st))
         == (INITIAL, Dispatch(OscGrammar.Capped(PAYLOAD_CAP, payload)))
  {
    var kept := OscGrammar.Capped(PAYLOAD_CAP, payload);
    OscGrammar.RunTwo(PAYLOAD_CAP, INITIAL, ESC, BRACKET);
    OscGrammar.RunAfterBody(PAYLOAD_CAP, payload, Terminator(st));
    RunConcat(PAYLOAD_CAP, INITIAL, [ESC, BRACKET], payload + Terminator(st));
    assert [ESC, BRACKET] + payload + Terminator(st) == [ESC, BRACKET] + (payload + Terminator(st));
    if st {
      OscGrammar.RunTwo(PAYLOAD_CAP, Scan(InOsc, kept), ESC, BACKSLASH);
    } else {
      OscGrammar.RunOne(PAYLOAD_CAP, Scan(InOsc, kept), BEL);
    }
    assert [] + Dispatch(kept) == Dispatch(kept);
  }

  /** Scanning any printed list of items returns exactly its events and leaves the scanner as it began. */
  lemma {:induction false} StreamRoundTrip(items: seq<Item>)
    requires forall item | item in items :: GoodItem(item)
    ensures Run(PAYLOAD_CAP, INITIAL, PrintAll(items)) == (INITIAL, EventsOf(items))
  {
    if items != [] {
      ItemRoundTrip(items[0]);
      StreamRoundTrip(items[1..]);
      RunConcat(PAYLOAD_CAP, INITIAL, Print(items[0]), PrintAll(items[1..]));
    }
  }

  /** After any garbage and one BEL, whatever is printed next is read back exactly. */
  lemma StreamRoundTripAfterGarbage(garbage: seq<Byte>, items: seq<Item>)
    requires forall item | item in items :: GoodItem(item)
    ensures Run(PAYLOAD_CAP, INITIAL, garbage + [BEL] + PrintAll(items))
         == (INITIAL, Run(PAYLOAD_CAP, INITIAL, garbage + [BEL]).1 + EventsOf(items))
  {
    OscGrammar.BelResynchronises(PAYLOAD_CAP, garbage, PrintAll(items));
    StreamRoundTrip(items);
  }

  /**
   The reported path names the directory that was printed exactly when the path is ASCII: each decoded
   byte becomes one character, and the path buffer stores that text in UTF-8.
   */
  lemma {:induction false} PathFaithfulIffAscii(bytes: seq<Byte>)
    ensures Utf8.Encode(FileUrl.Latin1(bytes)) == bytes <==> forall i :: 0 <= i < |bytes| ==> bytes[i] < 0x80
  {
    if bytes != [] {
      var rest := bytes[1..];
      PathFaithfulIffAscii(rest);
      Latin1Grows(bytes);
      Latin1Grows(rest);
      assert FileUrl.Latin1(bytes)[1..] == FileUrl.Latin1(rest);
      var e := Utf8.EncodeChar(bytes[0] as char);
      assert Utf8.Encode(FileUrl.Latin1(bytes)) == e + Utf8.Encode(FileUrl.Latin1(rest));
      if bytes[0] < 0x80 {
        assert e == [bytes[0]];
        assert (e + Utf8.Encode(FileUrl.Latin1(rest)))[1..] == Utf8.Encode(FileUrl.Latin1(rest));
        assert bytes == [bytes[0]] + rest;
        assert forall i :: 0 <= i < |rest| ==> rest[i] == bytes[i + 1];
        if forall i :: 0 <= i < |rest| ==> rest[i] < 0x80 {
          forall i | 0 <= i < |bytes|
            ensures bytes[i] < 0x80
          {
            if i > 0 {
              assert rest[i - 1] == bytes[i];
            }
          }
        }
      } else {
        assert |e| == 2;
      }
    }
  }

  lemma {:induction false} Latin1Grows(bytes: seq<Byte>)
    ensures |Utf8.Encode(FileUrl.Latin1(bytes))| >= |bytes|
  {
    if bytes != [] {
      Latin1Grows(bytes[1..]);
      assert FileUrl.Latin1(bytes)[1..] == FileUrl.Latin1(bytes[1..]);
    }
  }

  lemma PlainPathDispatches(path: seq<Byte>)
    requires AllGraphic(path) && FileUrl.PERCENT !in path
    requires path != [] && path[0] == FileUrl.SLASH
    ensures Dispatch(CWD_PREFIX + path) == [Cwd(FileUrl.Latin1(path))]
  {
    assert path[0] != FileUrl.FILE_SCHEME[0];
    RawUnescapes(path);
    FilePathOf(path, path, path);
    CwdDispatches(path, FileUrl.Latin1(path));
  }

  /** A directory too long for the buffer is still reported, cut short without notice. */
  lemma LongDirectoryIsCut(path: seq<Byte>, st: bool)
    requires forall i :: 0 <= i < |path| ==> IsGraphicAscii(path[i]) && path[i] != FileUrl.PERCENT
    requires |path| > 0 && path[0] == FileUrl.SLASH
    ensures Run(PAYLOAD_CAP, INITIAL, [ESC, BRACKET] + (CWD_PREFIX + path) + Terminator(st))
         == (INITIAL, [Cwd(FileUrl.Latin1(if |path| <= 4094 then path else path[..4094]))])
  {
    var kept := if |path| <= 4094 then path else path[..4094];
    OscRoundTrip(CWD_PREFIX + path, st);
    assert OscGrammar.Capped(PAYLOAD_CAP, CWD_PREFIX + path) == CWD_PREFIX + kept;
    PlainPathDispatches(kept);
  }

  lemma {:induction false} RawUnescapes(s: seq<Byte>)
    requires FileUrl.PERCENT !in s
    ensures FileUrl.Unescape(s) == Some(s)
  {
    if s != [] {
      assert s[0] in s;
      RawUnescapes(s[1..]);
      assert s == [s[0]] + s[1..];
    }
  }

  // ---- directories too long for the buffer ------------------------------------------------------

  lemma {:induction false} PrintPathConcat(a: seq<Piece>, b: seq<Piece>)
    ensures PrintPath(a + b) == PrintPath(a) + PrintPath(b)
  {
    if a == [] {
      assert a + b == b;
    } else {
      assert (a + b)[1..] == a[1..] + b;
      PrintPathConcat(a[1..], b);
    }
  }

  /** The first `m` bytes of a printed path are the print of its first `k` pieces. */
  ghost predicate EndsPiece(path: seq<Piece>, m: int, k: nat) {
    k <= |path| && |PrintPath(path[..k])| == m
  }

  lemma CutAfterPiece(path: seq<Piece>, m: nat, k: nat)
    requires (forall p | p in path :: GoodPiece(p)) && EndsPiece(path, m, k)
    ensures m <= |PrintPath(path)|
    ensures FileUrl.Unescape(PrintPath(path)[..m]) == Some(PathBytes(path[..k]))
  {
    assert path == path[..k] + path[k..];
    PrintPathConcat(path[..k], path[k..]);
    assert PrintPath(path)[..m] == PrintPath(path[..k]);
    GoodIsPlain(path);
    UnescapeInvertsPrinting(path[..k]);
  }

  /** A cut inside an escape makes the whole path unreadable. */
  lemma {:induction false} CutInsideEscape(path: seq<Piece>, m: nat)
    requires (forall p | p in path :: GoodPiece(p)) && m <= |PrintPath(path)|
    requires forall k: nat :: !EndsPiece(path, m, k)
    ensures FileUrl.Unescape(PrintPath(path)[..m]) == None
    decreases path
  {
    assert path[..0] == [] && !EndsPiece(path, m, 0);
    var w := |PrintPiece(path[0])|;
    var cut := PrintPath(path)[..m];
    assert GoodPiece(path[0]);
    if m < w {
      assert cut[0] == FileUrl.PERCENT;
    } else {
      var rest, left := path[1..], m - w;
      forall k: nat
        ensures !EndsPiece(rest, left, k)
      {
        if EndsPiece(rest, left, k) {
          PrintFirst(path, k);
          assert EndsPiece(path, m, k + 1);
        }
      }
      CutInsideEscape(rest, left);
      assert cut[w..] == PrintPath(rest)[..left];
      assert cut[..w] == PrintPiece(path[0]);
      UnescapeAfterPiece(path[0], cut);
    }
  }

  lemma PrintFirst(path: seq<Piece>, k: nat)
    requires path != [] && k <= |path[1..]|
    ensures PrintPath(path[..k + 1]) == PrintPiece(path[0]) + PrintPath(path[1..][..k])
  {
    assert path[..k + 1][1..] == path[1..][..k];
  }

  /** Room for the path behind `7;file://` and the host. */
  function Room(host: seq<Byte>): int {
    4087 - |host|
  }

  lemma CutInHost(host: seq<Byte>, path: seq<Piece>)
    requires GoodUrl(host, path) && Room(host) < 1
    ensures Dispatch(CWD_PREFIX + (FileUrl.FILE_SCHEME + host + PrintPath(path))[..4094]) == []
  {
    var kept := (FileUrl.FILE_SCHEME + host + PrintPath(path))[..4094];
    assert kept == FileUrl.FILE_SCHEME + host[..4087];
    assert kept[|FileUrl.FILE_SCHEME|..] == host[..4087];
    NoSlash(host[..4087]);
    assert FileUrl.PathPart(kept) == None;
    assert (CWD_PREFIX + kept)[|CWD_PREFIX|..] == kept;
  }

  lemma KeptUrl(host: seq<Byte>, path: seq<Piece>)
    requires GoodUrl(host, path) && Room(host) >= 1 && |PrintPath(path)| >= Room(host)
    ensures var kept := PrintPath(path)[..Room(host)];
            && (FileUrl.FILE_SCHEME + host + PrintPath(path))[..4094] == FileUrl.FILE_SCHEME + host + kept
            && AllGraphic(FileUrl.FILE_SCHEME + host + kept)
            && FileUrl.PathPart(FileUrl.FILE_SCHEME + host + kept) == Some(kept)
  {
    var url := FileUrl.FILE_SCHEME + host + PrintPath(path);
    var kept := PrintPath(path)[..Room(host)];
    UrlIsGraphic(host, path);
    assert url[..4094] == FileUrl.FILE_SCHEME + host + kept;
    assert PrintPath(path)[0] == FileUrl.SLASH == kept[0];
    UrlPathPart(host, kept);
  }

  lemma CutAtPiece(host: seq<Byte>, path: seq<Piece>, k: nat)
    requires GoodUrl(host, path) && Room(host) >= 1 && |PrintPath(path)| >= Room(host)
    requires EndsPiece(path, Room(host), k)
    ensures Dispatch(CWD_PREFIX + (FileUrl.FILE_SCHEME + host + PrintPath(path))[..4094])
         == [Cwd(FileUrl.Latin1(PathBytes(path[..k])))]
  {
    CutAfterPiece(path, Room(host), k);
    KeptUrl(host, path);
    var kept := PrintPath(path)[..Room(host)];
    var url := FileUrl.FILE_SCHEME + host + kept;
    assert k > 0;
    FilePathOf(url, kept, PathBytes(path[..k]));
    CwdDispatches(url, FileUrl.Latin1(PathBytes(path[..k])));
  }

  lemma CutAtEscape(host: seq<Byte>, path: seq<Piece>)
    requires GoodUrl(host, path) && Room(host) >= 1 && |PrintPath(path)| >= Room(host)
    requires forall k: nat :: !EndsPiece(path, Room(host), k)
    ensures Dispatch(CWD_PREFIX + (FileUrl.FILE_SCHEME + host + PrintPath(path))[..4094]) == []
  {
    CutInsideEscape(path, Room(host));
    KeptUrl(host, path);
    var kept := PrintPath(path)[..Room(host)];
    var url := FileUrl.FILE_SCHEME + host + kept;
    assert (CWD_PREFIX + url)[|CWD_PREFIX|..] == url;
  }

  /**
   A `file` URL too long for the buffer is reported as the path of the whole pieces that fit, if the cut falls
   between two pieces of the path; a cut in the host or inside an escape loses the event.
   */
  lemma LongUrlIsCut(host: seq<Byte>, path: seq<Piece>, st: bool)
    requires GoodUrl(host, path) && |Payload(Directory(host, path, st))| > PAYLOAD_CAP.value
    ensures var (scan, events) := Run(PAYLOAD_CAP, INITIAL, Print(Directory(host, path, st)));
            && scan == INITIAL
            && (events != [] <==> exists k: nat :: k > 0 && EndsPiece(path, Room(host), k))
            && (forall k: nat :: k > 0 && EndsPiece(path, Room(host), k) ==>
                  events == [Cwd(FileUrl.Latin1(PathBytes(path[..k])))])
  {
    var item := Directory(host, path, st);
    var url := FileUrl.FILE_SCHEME + host + PrintPath(path);
    DirectoryIsQuiet(item);
    OscRoundTrip(Payload(item), st);
    assert OscGrammar.Capped(PAYLOAD_CAP, Payload(item)) == CWD_PREFIX + url[..4094];
    assert |PrintPath(path[..0])| == 0;
    if Room(host) < 1 {
      CutInHost(host, path);
      forall k: nat | k > 0
        ensures !EndsPiece(path, Room(host), k)
      {
        if k <= |path| {
          assert |PrintPiece(path[..k][0])| > 0;
        }
      }
    } else if k: nat :| EndsPiece(path, Room(host), k) {
      assert k > 0;
      forall j: nat | EndsPiece(path, Room(host), j)
        ensures Dispatch(CWD_PREFIX + url[..4094]) == [Cwd(FileUrl.Latin1(PathBytes(path[..j])))]
      {
        CutAtPiece(host, path, j);
      }
    } else {
      CutAtEscape(host, path);
    }
  }
}
