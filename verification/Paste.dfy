/** Pasted text: what is sent for it, and what the reference editor makes of it. */
module Paste {
  import opened Prelude
  import opened LineEditor
  import Keys
  import L = Lockstep
  import Utf8

  const PASTE_START: seq<Byte> := [0x1b, 0x5b, 0x32, 0x30, 0x30, 0x7e]

  /** What is sent for pasted text, between the markers that a remote may have asked for. */
  function Pasted(text: string, bracketed: bool): seq<Byte> {
    if bracketed then PASTE_START + Utf8.Encode(text) + PASTE_END else Utf8.Encode(text)
  }

  /** An end of line in pasted text, which the editor takes for Enter. */
  predicate EndsLine(c: char) {
    c == '\r' || c == '\n'
  }

  predicate IsPlainText(text: string) {
    forall i :: 0 <= i < |text| ==> IsPrintable(text[i]) || EndsLine(text[i])
  }

  predicate HasLineEnd(text: string) {
    exists i :: 0 <= i < |text| && EndsLine(text[i])
  }

  /** The text after the last end of line; all of it if there is none. */
  function LastLine(text: string): string {
    if HasLineEnd(text) then LastLine(text[1..]) else text
  }

  lemma FirstCharOfText(text: string)
    requires text != []
    ensures HasLineEnd(text) <==> EndsLine(text[0]) || HasLineEnd(text[1..])
  {
    if i :| 0 <= i < |text| && EndsLine(text[i]) {
      if i > 0 {
        assert text[1..][i - 1] == text[i];
      }
    }
    if i :| 0 <= i < |text[1..]| && EndsLine(text[1..][i]) {
      assert text[i + 1] == text[1..][i];
    }
  }

  lemma FeedTextChar(ed: Editor, c: char)
    requires ed.pending.Ground? && (IsPrintable(c) || EndsLine(c))
    ensures FeedAll(ed, Utf8.EncodeChar(c))
         == if EndsLine(c) then Editor([], [], Ground) else ed.(before := ed.before + [c])
  {
    if EndsLine(c) {
      L.FeedControl(ed, c as int);
    } else {
      FeedPrintable(ed, c);
    }
  }

  /** Plain text is typed, and each end of line leaves the line empty. */
  lemma {:induction false} FeedPlainText(ed: Editor, text: string)
    requires ed.pending.Ground? && IsPlainText(text)
    ensures FeedAll(ed, Utf8.Encode(text))
         == if HasLineEnd(text) then Editor(LastLine(text), [], Ground) else ed.(before := ed.before + text)
    decreases text
  {
    if text == [] {
      L.FeedNothing(ed);
      assert ed.before + text == ed.before;
    } else {
      FirstCharOfText(text);
      FeedTextChar(ed, text[0]);
      FeedAllConcat(ed, Utf8.EncodeChar(text[0]), Utf8.Encode(text[1..]));
      if EndsLine(text[0]) {
        FeedPlainText(Editor([], [], Ground), text[1..]);
        assert [] + text[1..] == text[1..];
      } else {
        FeedPlainText(ed.(before := ed.before + [text[0]]), text[1..]);
        assert ed.before + [text[0]] + text[1..] == ed.before + text;
      }
    }
  }

  lemma {:induction false} EndedLineIsLast(command: string, end: char)
    requires EndsLine(end)
    ensures HasLineEnd(command + [end]) && LastLine(command + [end]) == []
  {
    var text := command + [end];
    assert EndsLine(text[|command|]);
    if command == [] {
      assert text[1..] == [];
    } else {
      assert text[1..] == command[1..] + [end];
      EndedLineIsLast(command[1..], end);
    }
  }

  lemma {:induction false} CollectPaste(ed: Editor, collected: seq<Byte>, more: seq<Byte>)
    requires ed.pending == Pasting(collected) && Keys.ESC !in collected + more
    ensures FeedAll(ed, more) == ed.(pending := Pasting(collected + more))
    decreases more
  {
    if more == [] {
      L.FeedNothing(ed);
      assert collected + more == collected;
    } else {
      var c := collected + [more[0]];
      assert forall b :: b in c ==> b in collected + more;
      StillPasting(ed, c);
      assert c + more[1..] == collected + more;
      CollectPaste(Feed(ed, more[0]), c, more[1..]);
    }
  }

  /** Without ESC six bytes from the end, a paste has not ended. */
  lemma StillPasting(ed: Editor, collected: seq<Byte>)
    requires |collected| >= 6 ==> collected[|collected| - 6] != Keys.ESC
    ensures FeedPasting(ed, collected) == ed.(pending := Pasting(collected))
  {
  }

  lemma {:induction false} EndPaste(ed: Editor, text: string, k: nat)
    requires k < 6 && ed.pending == Pasting(Utf8.Encode(text) + PASTE_END[..k])
    requires Keys.ESC !in Utf8.Encode(text)
    ensures FeedAll(ed, PASTE_END[k..])
         == ed.(before := ed.before + text, pending := Ground)
    decreases 6 - k
  {
    var body, end := Utf8.Encode(text), PASTE_END;
    var collected := body + end[..k + 1];
    assert body + end[..k] + [end[k]] == collected;
    var next := Feed(ed, end[k]);
    assert end[k..][1..] == end[k + 1..];
    if k + 1 < 6 {
      StillPasting(ed, collected);
      StillPasting(ed.(pending := Ground), collected);
      EndPaste(next, text, k + 1);
    } else {
      assert collected[|body|..] == end && collected[..|body|] == body;
      Utf8.DecodeOfEncode(text);
      L.FeedNothing(next);
    }
  }

  lemma PasteCommand(parameters: seq<Byte>)
    requires parameters == [0x32, 0x30, 0x30]
    ensures SequenceCommand(parameters, 0x7e) == Await(Pasting([]))
  {
  }

  lemma FeedPasteStart(ed: Editor, start: seq<Byte>)
    requires ed.pending.Ground? && start == PASTE_START
    ensures FeedAll(ed, start) == ed.(pending := Pasting([]))
  {
    var parameters := start[2..5];
    PasteCommand(parameters);
    L.FeedSequence(ed, start, parameters, 0x7e, Await(Pasting([])));
  }

  lemma FeedPasteEnd(ed: Editor, text: string)
    requires ed.pending.Ground? && Keys.ESC !in Utf8.Encode(text)
    ensures FeedAll(ed.(pending := Pasting(Utf8.Encode(text))), PASTE_END) == ed.(before := ed.before + text)
  {
    assert Utf8.Encode(text) + PASTE_END[..0] == Utf8.Encode(text);
    assert PASTE_END[0..] == PASTE_END;
    EndPaste(ed.(pending := Pasting(Utf8.Encode(text))), text, 0);
  }

  /** Text in brackets is inserted as it stands. */
  lemma FeedBracketed(ed: Editor, text: string)
    requires ed.pending.Ground? && Keys.ESC !in Utf8.Encode(text)
    ensures FeedAll(ed, Pasted(text, true)) == ed.(before := ed.before + text)
  {
    var body := Utf8.Encode(text);
    FeedPasteStart(ed, PASTE_START);
    FeedAllConcat(ed, PASTE_START, body);
    assert [] + body == body;
    CollectPaste(ed.(pending := Pasting([])), [], body);
    FeedAllConcat(ed, PASTE_START + body, PASTE_END);
    FeedPasteEnd(ed, text);
  }
}
