// What one frame shows of the target line: each character of the line is
// written plain, as the first character of a needle occurrence (underline and
// reverse video), or as a later character of an occurrence (reverse video).

module Style {
  import opened CStrings

  datatype Token =
    | Plain(c: char)       // the character alone
    | StartMatch(c: char)  // "\e[4;7m" c "\e[0m"
    | InMatch(c: char)     // "\e[7m" c "\e[0m"

  /** Some occurrence of a non-empty `needle` starts before `i` and still
      covers `i`. */
  predicate Covered(line: seq<char>, needle: seq<char>, i: int) {
    exists s :: 0 <= s < i < s + |needle| && OccursAt(line, needle, s)
  }

  /** How the character at index `i` is drawn. */
  function Classify(line: seq<char>, needle: seq<char>, i: nat): Token
    requires i < |line|
  {
    if |needle| > 0 && OccursAt(line, needle, i) then StartMatch(line[i])
    else if Covered(line, needle, i) then InMatch(line[i])
    else Plain(line[i])
  }

  /** The styled line of a frame, one token per character of `line`. */
  function Render(line: seq<char>, needle: seq<char>): seq<Token> {
    seq(|line|, i requires 0 <= i < |line| => Classify(line, needle, i))
  }

  /** The bytes `fprintf`/`fputc` write for one token. */
  function Wire(t: Token): string {
    match t
    case Plain(c) => [c]
    case StartMatch(c) => "\U{1B}[4;7m" + [c] + "\U{1B}[0m"
    case InMatch(c) => "\U{1B}[7m" + [c] + "\U{1B}[0m"
  }

  /** The bytes written for a sequence of tokens, in order. */
  function WireAll(ts: seq<Token>): string {
    if ts == [] then [] else WireAll(ts[..|ts| - 1]) + Wire(ts[|ts| - 1])
  }

  /** The countdown rule: at a character where no occurrence starts, a
      positive `remain` (the characters left of the latest occurrence) means
      reverse video and zero means plain, provided `remain` is at least what
      every earlier occurrence still has left and is what one of them has left. */
  lemma ClassifyByRemain(line: seq<char>, needle: seq<char>, i: nat, remain: int)
    requires i < |line| && !(|needle| > 0 && OccursAt(line, needle, i))
    requires 0 <= remain && (remain == 0 || remain < |needle|)
    requires remain > 0 ==> 0 <= i + remain - |needle| && OccursAt(line, needle, i + remain - |needle|)
    requires forall s :: 0 <= s < i && OccursAt(line, needle, s) ==> s + |needle| - i <= remain
    ensures Classify(line, needle, i) == if remain > 0 then InMatch(line[i]) else Plain(line[i])
  {
    if remain > 0 {
      var s := i + remain - |needle|;
      assert 0 <= s < i < s + |needle| && OccursAt(line, needle, s);
    }
  }

  /** Styling never changes which character is drawn where. */
  lemma RenderKeepsText(line: seq<char>, needle: seq<char>)
    ensures |Render(line, needle)| == |line|
    ensures forall i :: 0 <= i < |line| ==> Render(line, needle)[i].c == line[i]
  {
  }

  lemma {:induction false} WirePlain(line: seq<char>, ts: seq<Token>)
    requires |ts| == |line|
    requires forall i :: 0 <= i < |line| ==> ts[i] == Plain(line[i])
    ensures WireAll(ts) == line
  {
    if ts != [] {
      var n := |ts| - 1;
      WirePlain(line[..n], ts[..n]);
      assert line == line[..n] + [line[n]];
    }
  }

  /** With an empty needle every character is plain and the frame body is the
      line itself, byte for byte. */
  lemma EmptyNeedleShowsLine(line: seq<char>)
    ensures forall i :: 0 <= i < |line| ==> Render(line, [])[i] == Plain(line[i])
    ensures WireAll(Render(line, [])) == line
  {
    WirePlain(line, Render(line, []));
  }

  /** A start marker is drawn exactly where a non-empty needle occurs; a
      reverse-only character lies strictly inside an occurrence that starts
      earlier. */
  lemma StylesExact(line: seq<char>, needle: seq<char>, i: nat)
    requires i < |line|
    ensures Render(line, needle)[i].StartMatch? <==> |needle| > 0 && OccursAt(line, needle, i)
    ensures Render(line, needle)[i].InMatch? <==>
              !(|needle| > 0 && OccursAt(line, needle, i)) &&
              exists s :: 0 <= s < i < s + |needle| && OccursAt(line, needle, s)
    ensures Render(line, needle)[i].Plain? <==>
              !(|needle| > 0 && OccursAt(line, needle, i)) && !Covered(line, needle, i)
  {
  }

  /** The offset that `strstr` finds is the first start-marked character of
      the frame; when `strstr` finds nothing, no character is start-marked. */
  lemma FirstStartIsLeftmost(line: seq<char>, needle: seq<char>)
    requires |needle| > 0
    ensures FindFirst(line, needle).Some? ==>
              var p := FindFirst(line, needle).value;
              p < |line| && Render(line, needle)[p].StartMatch? &&
              forall q :: 0 <= q < p ==> !Render(line, needle)[q].StartMatch?
    ensures FindFirst(line, needle).None? ==>
              forall q :: 0 <= q < |line| ==> !Render(line, needle)[q].StartMatch?
  {
  }

  /** Overlapping occurrences: in "aaa" the needle "aa" starts at 0 and at 1,
      so the second character gets a start marker again (resetting the
      countdown) and the third is reverse-only. */
  lemma OverlapRestartsMatch()
    ensures Render("aaa", "aa") == [StartMatch('a'), StartMatch('a'), InMatch('a')]
  {
    assert OccursAt("aaa", "aa", 0) && OccursAt("aaa", "aa", 1);
    assert !OccursAt("aaa", "aa", 2);
    assert Covered("aaa", "aa", 2) by {
      assert 0 <= 1 < 2 < 1 + 2;
    }
  }
}
