// shellhop.c: save and hide the cursor, then repeat: redraw the prompt line
// with the needle's occurrences highlighted, read one key, act on it. Carriage
// return prints the leftmost offset and ends the loop, escape ends it silently;
// both restore the screen and the cursor and exit with status 0.

module Shellhop {
  import opened CStrings
  import opened Style
  import opened Keys
  import opened Needle
  import opened Terminal

  /** `BUFSIZ` from <stdio.h>, the size of `needle`; 8192 with the GNU C library. */
  const BUFSIZ: nat := 8192

  const Label: string := "(shellhop): "

  function Prologue(): seq<Emit> {
    [SaveCursor, HideCursor]
  }

  /** One pass of the loop body before `getchar`. */
  function Frame(line: seq<char>, needle: seq<char>): seq<Emit> {
    [RestoreCursor, Text(Label), Styled(Render(line, needle)), ClearToEnd]
  }

  function Teardown(): seq<Emit> {
    [RestoreCursor, ClearToEnd, ShowCursor]
  }

  /** The first `m` frames: frame `j` shows the needle typed by the first `j` keys. */
  function Frames(line: seq<char>, keys: seq<char>, m: nat): seq<Emit>
    requires m <= |keys| + 1
  {
    if m == 0 then []
    else Frames(line, keys, m - 1) + Frame(line, Typed(keys[..m - 1], BUFSIZ))
  }

  /** What a run with key input `keys` produces. The loop reads the keys up to
      and including the first CR or ESC; if there is none it is left waiting
      for a key after drawing one more frame. */
  function Transcript(line: seq<char>, keys: seq<char>): Session {
    var k := FirstStop(keys);
    var stopped := k < |keys|;
    Session(
      Prologue() + Frames(line, keys, k + 1) + (if stopped then Teardown() else []),
      if stopped && keys[k] == CR then FindFirst(line, Typed(keys[..k], BUFSIZ)) else None,
      if stopped then Some(0) else None)
  }

  lemma FramesNext(line: seq<char>, keys: seq<char>, pos: nat)
    requires pos <= |keys|
    ensures Frames(line, keys, pos + 1) == Frames(line, keys, pos) + Frame(line, Typed(keys[..pos], BUFSIZ))
  {
  }

  /** The transcript of a run that stops at key `k`. */
  lemma TranscriptStopped(line: seq<char>, keys: seq<char>, k: nat)
    requires k < |keys| && IsStop(keys[k])
    requires forall j :: 0 <= j < k ==> !IsStop(keys[j])
    ensures Transcript(line, keys) ==
            Session(Prologue() + Frames(line, keys, k + 1) + Teardown(),
                    if keys[k] == CR then FindFirst(line, Typed(keys[..k], BUFSIZ)) else None,
                    Some(0))
  {
    assert FirstStop(keys) == k;
  }

  /** The transcript of a run whose keys hold no CR or ESC. */
  lemma TranscriptPending(line: seq<char>, keys: seq<char>)
    requires forall j :: 0 <= j < |keys| ==> !IsStop(keys[j])
    ensures Transcript(line, keys) == Session(Prologue() + Frames(line, keys, |keys| + 1), None, None)
  {
    assert FirstStop(keys) == |keys|;
  }

  /** `main` after argument handling, with `line` the bytes of `argv[1]`
      and `keys` the bytes `getchar` returns. */
  method Run(line: seq<char>, keys: seq<char>) returns (s: Session)
    requires NoNul(line) && NoNul(keys)
    ensures s == Transcript(line, keys)
  {
    var needle := new NeedleBuffer(BUFSIZ);
    var err := Prologue();
    var out: Option<nat> := None;
    var status: Option<int> := None;
    var pos := 0;
    while true
      invariant 0 <= pos <= |keys|
      invariant needle.Valid() && needle.buf.Length == BUFSIZ
      invariant forall j :: 0 <= j < pos ==> !IsStop(keys[j])
      invariant needle.Contents() == Typed(keys[..pos], BUFSIZ)
      invariant err == Prologue() + Frames(line, keys, pos)
      invariant out == None && status == None
      decreases |keys| - pos
    {
      var cells := needle.Paint(line);
      ghost var before := err;
      err := err + [RestoreCursor, Text(Label), Styled(cells), ClearToEnd];
      assert err == before + Frame(line, Typed(keys[..pos], BUFSIZ));
      FramesNext(line, keys, pos);
      assert err == Prologue() + Frames(line, keys, pos + 1);
      if pos == |keys| {
        TranscriptPending(line, keys);
        break;
      }
      var c := keys[pos];
      if c == CR {
        out := needle.Confirm(line);
        status := Some(0);
        TranscriptStopped(line, keys, pos);
        break;
      } else if c == ESC {
        status := Some(0);
        TranscriptStopped(line, keys, pos);
        break;
      }
      TypedNext(keys, pos, BUFSIZ);
      assert c != '\0';  // keys hold no NUL
      needle.EditKey(c);
      pos := pos + 1;
    }
    if status.Some? {
      err := err + Teardown();
    }
    s := Session(err, out, status);
  }

  lemma {:induction false} FramesCount(line: seq<char>, keys: seq<char>, m: nat, e: Emit)
    requires m <= |keys| + 1
    requires e == Text(Label) || e == ShowCursor || e == HideCursor
    ensures Count(Frames(line, keys, m), e) == if e == Text(Label) then m else 0
  {
    if m > 0 {
      var needle := Typed(keys[..m - 1], BUFSIZ);
      FramesCount(line, keys, m - 1, e);
      CountConcat(Frames(line, keys, m - 1), Frame(line, needle), e);
      CountFour(RestoreCursor, Text(Label), Styled(Render(line, needle)), ClearToEnd, e);
    }
  }

  lemma StderrCount(line: seq<char>, keys: seq<char>, e: Emit)
    requires e == Text(Label) || e == ShowCursor || e == HideCursor
    ensures Count(Transcript(line, keys).stderr, e) ==
            Count(Prologue(), e) + (if e == Text(Label) then FirstStop(keys) + 1 else 0) +
            (if FirstStop(keys) < |keys| then Count(Teardown(), e) else 0)
  {
    var k := FirstStop(keys);
    var tail := if k < |keys| then Teardown() else [];
    assert Transcript(line, keys).stderr == Prologue() + Frames(line, keys, k + 1) + tail;
    FramesCount(line, keys, k + 1, e);
    CountConcat(Prologue(), Frames(line, keys, k + 1), e);
    CountConcat(Prologue() + Frames(line, keys, k + 1), tail, e);
  }

  /** One frame is drawn before every key read, and one more while the loop
      waits for a key; the cursor is hidden once and shown again exactly once,
      and only when the loop has ended. */
  lemma OneFramePerKey(line: seq<char>, keys: seq<char>)
    ensures Count(Transcript(line, keys).stderr, Text(Label)) == FirstStop(keys) + 1
    ensures Count(Transcript(line, keys).stderr, HideCursor) == 1
    ensures Count(Transcript(line, keys).stderr, ShowCursor) ==
            if Transcript(line, keys).status.Some? then 1 else 0
  {
    StderrCount(line, keys, Text(Label));
    StderrCount(line, keys, HideCursor);
    StderrCount(line, keys, ShowCursor);
    CountTwo(SaveCursor, HideCursor, Text(Label));
    CountTwo(SaveCursor, HideCursor, HideCursor);
    CountTwo(SaveCursor, HideCursor, ShowCursor);
    CountThree(RestoreCursor, ClearToEnd, ShowCursor, Text(Label));
    CountThree(RestoreCursor, ClearToEnd, ShowCursor, HideCursor);
    CountThree(RestoreCursor, ClearToEnd, ShowCursor, ShowCursor);
  }

  /** Carriage return prints the offset of the leftmost occurrence of the
      typed needle (0 for an empty needle) and nothing when there is none;
      the printed offset is the first start-marked character of the last
      frame; the exit status is 0. */
  lemma ConfirmPrintsLeftmost(line: seq<char>, keys: seq<char>)
    requires FirstStop(keys) < |keys| && keys[FirstStop(keys)] == CR
    ensures var s := Transcript(line, keys);
            var needle := Typed(keys[..FirstStop(keys)], BUFSIZ);
            s.status == Some(0) &&
            (s.stdout.Some? <==> exists q :: OccursAt(line, needle, q)) &&
            (s.stdout.Some? ==> OccursAt(line, needle, s.stdout.value) &&
                                forall q :: 0 <= q < s.stdout.value ==> !OccursAt(line, needle, q)) &&
            (needle == [] ==> s.stdout == Some(0)) &&
            (needle != [] && s.stdout.Some? ==>
               Render(line, needle)[s.stdout.value].StartMatch? &&
               forall q :: 0 <= q < s.stdout.value ==> !Render(line, needle)[q].StartMatch?)
  {
    var k := FirstStop(keys);
    var needle := Typed(keys[..k], BUFSIZ);
    TranscriptStopped(line, keys, k);
    assert Transcript(line, keys).stdout == FindFirst(line, needle);
    if needle != [] {
      FirstStartIsLeftmost(line, needle);
    }
  }

  /** Escape ends the loop with nothing on stdout and exit status 0. */
  lemma EscapePrintsNothing(line: seq<char>, keys: seq<char>)
    requires FirstStop(keys) < |keys| && keys[FirstStop(keys)] == ESC
    ensures Transcript(line, keys).stdout == None
    ensures Transcript(line, keys).status == Some(0)
    ensures Transcript(line, keys).stderr[|Transcript(line, keys).stderr| - 3..] == Teardown()
  {
  }

  /** Every frame's needle fits the array with its terminator. */
  lemma NeedleFits(keys: seq<char>, j: nat)
    requires j <= |keys|
    ensures |Typed(keys[..j], BUFSIZ)| <= BUFSIZ - 1
  {
    TypedLength(keys[..j], BUFSIZ);
  }
}
