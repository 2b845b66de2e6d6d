// The key dispatch of the interactive loop, as a function of the keys read
// so far: carriage return confirms, escape aborts, DEL (127) removes the last
// needle character, and every other byte is appended while there is room.

module Keys {
  import opened CStrings

  const CR: char := '\r'
  const DEL: char := '\U{7F}'
  const ESC: char := '\U{1B}'

  /** A key that ends the loop. */
  predicate IsStop(c: char) {
    c == CR || c == ESC
  }

  /** A key that the loop appends to the needle when there is room. */
  predicate IsOrdinary(c: char) {
    c != CR && c != ESC && c != DEL
  }

  /** The needle after one non-stopping key, for a needle array of `size`
      characters: appending needs `|needle| + 1 < size`, leaving room for the
      terminator. */
  function Edit(needle: seq<char>, c: char, size: nat): seq<char> {
    if c == DEL then (if |needle| > 0 then needle[..|needle| - 1] else needle)
    else if IsStop(c) then needle
    else if |needle| + 1 < size then needle + [c]
    else needle
  }

  /** The needle after the keys `keys`, starting from the empty needle. */
  function Typed(keys: seq<char>, size: nat): seq<char> {
    if keys == [] then []
    else Edit(Typed(keys[..|keys| - 1], size), keys[|keys| - 1], size)
  }

  /** Reading one more key applies `Edit` to the needle typed so far. */
  lemma TypedNext(keys: seq<char>, pos: nat, size: nat)
    requires pos < |keys|
    ensures Typed(keys[..pos + 1], size) == Edit(Typed(keys[..pos], size), keys[pos], size)
  {
    assert keys[..pos + 1][..pos] == keys[..pos];
  }

  /** Index of the first key that ends the loop, or `|keys|` when none does. */
  function FirstStop(keys: seq<char>): (r: nat)
    ensures r <= |keys|
    ensures forall j :: 0 <= j < r ==> !IsStop(keys[j])
    ensures r < |keys| ==> IsStop(keys[r])
  {
    if keys == [] then 0
    else if IsStop(keys[0]) then 0
    else 1 + FirstStop(keys[1..])
  }

  /** DEL undoes an append that had room. */
  lemma DeleteUndoesAppend(needle: seq<char>, c: char, size: nat)
    requires IsOrdinary(c) && |needle| + 1 < size
    ensures Edit(Edit(needle, c, size), DEL, size) == needle
  {
  }

  /** Whatever the keys, the needle never grows past `size - 1` characters, so
      one slot always holds the terminator. */
  lemma {:induction false} TypedLength(keys: seq<char>, size: nat)
    requires size >= 1
    ensures |Typed(keys, size)| <= size - 1
  {
    if keys != [] {
      TypedLength(keys[..|keys| - 1], size);
    }
  }

  /** When no key is NUL, the needle holds no NUL either. */
  lemma {:induction false} TypedBounded(keys: seq<char>, size: nat)
    requires size >= 1
    requires NoNul(keys)
    ensures |Typed(keys, size)| <= size - 1
    ensures NoNul(Typed(keys, size))
  {
    TypedLength(keys, size);
    if keys != [] {
      var n := |keys| - 1;
      assert NoNul(keys[..n]) by {
        forall j | 0 <= j < n ensures keys[..n][j] != '\0' {
          assert keys[..n][j] == keys[j];
        }
      }
      TypedBounded(keys[..n], size);
    }
  }

  /** Typing ordinary keys only gives the first `size - 1` of them: the
      needle holds what was typed until it is full, and later keys are
      dropped. */
  lemma {:induction false} TypedOrdinary(keys: seq<char>, size: nat)
    requires size >= 1
    requires forall j :: 0 <= j < |keys| ==> IsOrdinary(keys[j])
    ensures |keys| < size ==> Typed(keys, size) == keys
    ensures |keys| >= size ==> Typed(keys, size) == keys[..size - 1]
  {
    if keys != [] {
      var n := |keys| - 1;
      TypedOrdinary(keys[..n], size);
      if |keys| < size {
        assert keys == keys[..n] + [keys[n]];
      } else if n < size {
        assert keys[..n] == keys[..size - 1];
      } else {
        assert keys[..n][..size - 1] == keys[..size - 1];
      }
    }
  }
}
