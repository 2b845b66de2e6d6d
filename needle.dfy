// The needle buffer shared by both programs: `char needle[N] = ""` and
// `int needle_len`, edited in place by the key loop, read by the per-frame
// renderer (through `strncmp`) and by the confirm rule (through `strstr`).

module Needle {
  import opened CStrings
  import opened Style
  import opened Keys

  class NeedleBuffer {
    /** `needle`: a fixed array, zero-filled at start. */
    const buf: array<char>
    /** `needle_len`. */
    var len: int

    /** The buffer always holds a C string of length `len`: room for the
        terminator, no NUL before `len` and only NULs from `len` on. */
    ghost predicate Valid()
      reads this, buf
    {
      buf.Length >= 1 &&
      0 <= len < buf.Length &&
      NoNul(buf[..len]) &&
      forall k :: len <= k < buf.Length ==> buf[k] == '\0'
    }

    /** The needle the user has typed. */
    function Contents(): seq<char>
      reads this, buf
      requires Valid()
    {
      buf[..len]
    }

    /** `char needle[size] = ""; int needle_len = 0;` */
    constructor (size: nat)
      requires size >= 1
      ensures Valid() && fresh(buf)
      ensures buf.Length == size && Contents() == []
    {
      buf := new char[size](_ => '\0');
      len := 0;
    }

    /** The final branch of the key dispatch: `needle[needle_len++] = c` when
        `needle_len + 1 < sizeof(needle)`, otherwise the key is dropped. The
        key is appended whether or not it occurs in the line. */
    method Append(c: char)
      requires Valid() && c != '\0'
      modifies this, buf
      ensures Valid()
      ensures old(len) + 1 < buf.Length ==> Contents() == old(Contents()) + [c]
      ensures old(len) + 1 >= buf.Length ==> Contents() == old(Contents()) && buf[..] == old(buf[..])
    {
      if len + 1 < buf.Length {
        buf[len] := c;
        len := len + 1;
        assert buf[..len] == old(buf[..len]) + [c];
      }
    }

    /** DEL: `needle[--needle_len] = '\0'` when the needle is non-empty,
        otherwise nothing changes. */
    method Delete()
      requires Valid()
      modifies this, buf
      ensures Valid()
      ensures old(len) > 0 ==> Contents() == old(Contents())[..old(len) - 1]
      ensures old(len) > 0 ==> buf[old(len) - 1] == '\0'
      ensures old(len) == 0 ==> len == 0 && buf[..] == old(buf[..])
    {
      if len > 0 {
        len := len - 1;
        buf[len] := '\0';
        assert buf[..len] == old(buf[..])[..len];
      }
    }

    /** The DEL branch and the final branch of the key dispatch, for a key
        that does not end the loop. */
    method EditKey(c: char)
      requires Valid() && c != '\0' && !IsStop(c)
      modifies this, buf
      ensures Valid()
      ensures Contents() == Edit(old(Contents()), c, buf.Length)
    {
      if c == DEL {
        Delete();
      } else {
        Append(c);
      }
    }

    /** The string `strstr` searches for is the stored C string, which the
        terminator invariant makes equal to the typed needle. */
    lemma StoredString()
      requires Valid()
      ensures CStr(buf[..]) == Contents()
    {
    }

    /** Carriage return: `strstr(line, needle)`, as an offset into the line,
        or None when the needle does not occur. */
    method Confirm(line: seq<char>) returns (offset: Option<nat>)
      requires Valid() && NoNul(line)
      ensures offset == FindFirst(line, Contents())
      ensures offset.Some? <==> exists q :: OccursAt(line, Contents(), q)
      ensures offset.Some? ==> OccursAt(line, Contents(), offset.value) &&
                               forall q :: 0 <= q < offset.value ==> !OccursAt(line, Contents(), q)
      ensures len == 0 ==> offset == Some(0)
    {
      StoredString();
      offset := FindFirst(line, CStr(buf[..]));
    }

    /** One frame's styled line, for a line that is a C string (the loop
        stops at its terminator): for each character, a start marker when the
        needle matches there (`strncmp`), which resets `remain` to
        `needle_len - 1`; otherwise reverse video while `remain` is positive,
        counting it down; otherwise the plain character. */
    method Paint(line: seq<char>) returns (cells: seq<Token>)
      requires Valid() && NoNul(line)
      ensures cells == Render(line, Contents())
    {
      ghost var needle := Contents();
      var remain := 0;
      var i := 0;
      cells := [];
      while i < |line|
        invariant 0 <= i <= |line|
        invariant |cells| == i
        invariant forall k :: 0 <= k < i ==> cells[k] == Classify(line, needle, k)
        invariant 0 <= remain && (remain == 0 || remain < len)
        invariant remain > 0 ==> 0 <= i + remain - len && OccursAt(line, needle, i + remain - len)
        invariant forall s :: 0 <= s < i && OccursAt(line, needle, s) ==> s + len - i <= remain
      {
        StrNCmpAt(line, buf[..], len, i);
        assert buf[..][..len] == needle;
        if len > 0 && StrNCmpZero(line[i..], buf[..], len) {
          cells := cells + [StartMatch(line[i])];
          remain := len - 1;
        } else {
          ClassifyByRemain(line, needle, i, remain);
          if remain > 0 {
            cells := cells + [InMatch(line[i])];
            remain := remain - 1;
          } else {
            cells := cells + [Plain(line[i])];
          }
        }
        i := i + 1;
      }
    }
  }
}
