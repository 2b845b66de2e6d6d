// What the two programs write: a stream of terminal actions and text on
// stderr, at most one decimal offset on stdout, and an exit status.

module Terminal {
  import opened CStrings
  import opened Style

  datatype Emit =
    | SaveCursor     // "\e[s"
    | RestoreCursor  // "\e[u"
    | HideCursor     // "\e[?25l"
    | ShowCursor     // "\e[?25h"
    | ClearToEnd     // "\e[J"
    | TputSave       // system("tput sc >&2")
    | TputRestore    // system("tput rc >&2")
    | TputClear      // system("tput ed >&2")
    | Text(s: string)              // a fixed label
    | Styled(cells: seq<Token>)    // the styled line, written character by character

  /** The observable result of one run: everything written to stderr, in the
      order the program issues it (buffering may reorder the bytes the
      terminal sees), the offset written to stdout as "%d\n" (None: stdout
      stays empty), and the exit status (None: the loop is still waiting for a key). */
  datatype Session = Session(stderr: seq<Emit>, stdout: Option<nat>, status: Option<int>)

  /** How many times `e` occurs in `es`. */
  function Count(es: seq<Emit>, e: Emit): nat {
    if es == [] then 0
    else Count(es[..|es| - 1], e) + (if es[|es| - 1] == e then 1 else 0)
  }

  lemma {:induction false} CountConcat(a: seq<Emit>, b: seq<Emit>, e: Emit)
    ensures Count(a + b, e) == Count(a, e) + Count(b, e)
    decreases |b|
  {
    if b != [] {
      var n := |b| - 1;
      assert (a + b)[..|a + b| - 1] == a + b[..n];
      CountConcat(a, b[..n], e);
    } else {
      assert a + b == a;
    }
  }

  function Hit(x: Emit, e: Emit): nat {
    if x == e then 1 else 0
  }

  lemma CountOne(x: Emit, e: Emit)
    ensures Count([x], e) == Hit(x, e)
  {
  }

  lemma CountTwo(a: Emit, b: Emit, e: Emit)
    ensures Count([a, b], e) == Hit(a, e) + Hit(b, e)
  {
    assert [a, b] == [a] + [b];
    CountConcat([a], [b], e);
    CountOne(a, e);
    CountOne(b, e);
  }

  lemma CountThree(a: Emit, b: Emit, c: Emit, e: Emit)
    ensures Count([a, b, c], e) == Hit(a, e) + Hit(b, e) + Hit(c, e)
  {
    assert [a, b, c] == [a, b] + [c];
    CountConcat([a, b], [c], e);
    CountTwo(a, b, e);
    CountOne(c, e);
  }

  lemma CountFour(a: Emit, b: Emit, c: Emit, d: Emit, e: Emit)
    ensures Count([a, b, c, d], e) == Hit(a, e) + Hit(b, e) + Hit(c, e) + Hit(d, e)
  {
    assert [a, b, c, d] == [a, b, c] + [d];
    CountConcat([a, b, c], [d], e);
    CountThree(a, b, c, e);
    CountOne(d, e);
  }
}
