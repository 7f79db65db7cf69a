/**
 * The pieces of Python's `str` that feed-URL resolution relies on:
 * `str.isspace`, `str.strip()` without arguments and `str.split(sep)` with
 * an explicit one-character separator. `Join` is the inverse of `Split`.
 */
module Text {

  /** Python's `str.isspace()` for one character: the characters `strip()` removes. */
  predicate IsSpace(c: char) {
    var n := c as int;
    (0x09 <= n <= 0x0D) || (0x1C <= n <= 0x20) || n == 0x85 || n == 0xA0 || n == 0x1680
    || (0x2000 <= n <= 0x200A) || n == 0x2028 || n == 0x2029 || n == 0x202F
    || n == 0x205F || n == 0x3000
  }

  predicate AllSpace(s: string) {
    forall k :: 0 <= k < |s| ==> IsSpace(s[k])
  }

  /** A string from which `strip()` removes nothing. */
  predicate IsStripped(s: string) {
    s == [] || (!IsSpace(s[0]) && !IsSpace(s[|s| - 1]))
  }

  /** `s.lstrip()`: the suffix of `s` left once its leading whitespace is gone. */
  function TrimLeft(s: string): (r: string)
    ensures |r| <= |s| && r == s[|s| - |r|..]
    ensures AllSpace(s[..|s| - |r|])
    ensures r != [] ==> !IsSpace(r[0])
  {
    if s != [] && IsSpace(s[0]) then TrimLeft(s[1..]) else s
  }

  /** `s.rstrip()`: the prefix of `s` left once its trailing whitespace is gone. */
  function TrimRight(s: string): (r: string)
    ensures |r| <= |s| && r == s[..|r|]
    ensures AllSpace(s[|r|..])
    ensures r != [] ==> !IsSpace(r[|r| - 1])
  {
    if s != [] && IsSpace(s[|s| - 1]) then TrimRight(s[..|s| - 1]) else s
  }

  /** `s.strip()`: no whitespace is left at either end, and nothing new appears. */
  function Strip(s: string): (r: string)
    ensures |r| <= |s| && IsStripped(r)
    ensures forall c :: c in r ==> c in s
  {
    TrimRight(TrimLeft(s))
  }

  /** What `strip()` keeps is one slice of its input, and all it cuts off is whitespace. */
  lemma StripIsSlice(s: string)
    ensures var r := Strip(s);
      exists i :: 0 <= i <= |s| - |r| && AllSpace(s[..i]) && r == s[i..i + |r|] && AllSpace(s[i + |r|..])
  {
    var t := TrimLeft(s);
    var r := TrimRight(t);
    var i := |s| - |t|;
    assert t == s[i..];
    assert r == s[i..i + |r|];
    assert s[i + |r|..] == t[|r|..];
    assert AllSpace(s[..i]) && AllSpace(s[i + |r|..]);
  }

  lemma {:induction false} TrimLeftPastSpaces(lead: string, rest: string)
    requires AllSpace(lead)
    requires rest == [] || !IsSpace(rest[0])
    ensures TrimLeft(lead + rest) == rest
  {
    if lead != [] {
      assert (lead + rest)[1..] == lead[1..] + rest;
      TrimLeftPastSpaces(lead[1..], rest);
    }
  }

  lemma {:induction false} TrimRightPastSpaces(rest: string, trail: string)
    requires AllSpace(trail)
    requires rest == [] || !IsSpace(rest[|rest| - 1])
    ensures TrimRight(rest + trail) == rest
  {
    if trail != [] {
      var n := |trail| - 1;
      assert (rest + trail)[..|rest + trail| - 1] == rest + trail[..n];
      TrimRightPastSpaces(rest, trail[..n]);
    }
  }

  /**
   * `strip()` is determined by what it must leave: whatever whitespace
   * surrounds a string with no whitespace at its ends, that string is the result.
   */
  lemma StripUnique(lead: string, mid: string, trail: string)
    requires AllSpace(lead) && AllSpace(trail) && IsStripped(mid)
    ensures Strip(lead + mid + trail) == mid
  {
    if mid == [] {
      assert lead + mid + trail == (lead + trail) + [];
      TrimLeftPastSpaces(lead + trail, []);
      TrimRightPastSpaces([], []);
    } else {
      assert lead + mid + trail == lead + (mid + trail);
      TrimLeftPastSpaces(lead, mid + trail);
      TrimRightPastSpaces(mid, trail);
    }
  }

  /** `strip()` leaves a string with no whitespace at its ends alone. */
  lemma StripStripped(u: string)
    requires IsStripped(u)
    ensures Strip(u) == u
  {
    StripUnique("", u, "");
    assert "" + u + "" == u;
  }

  /** `strip()` removes a space put before a string with no whitespace at its ends. */
  lemma StripLeadingSpace(u: string)
    requires IsStripped(u)
    ensures Strip(" " + u) == u
  {
    StripUnique(" ", u, "");
    assert " " + u + "" == " " + u;
  }

  /** Python's `sep.join(pieces)` for a one-character separator. */
  function Join(pieces: seq<string>, sep: char): (s: string)
    requires |pieces| >= 1
  {
    if |pieces| == 1 then pieces[0] else pieces[0] + [sep] + Join(pieces[1..], sep)
  }

  /**
   * Python's `s.split(sep)` with an explicit separator: empty pieces are
   * kept, so there is always one piece more than there are separators.
   */
  function Split(s: string, sep: char): (r: seq<string>)
    ensures |r| >= 1
    ensures forall k :: 0 <= k < |r| ==> sep !in r[k]
    ensures Join(r, sep) == s
  {
    if s == [] then [[]]
    else
      var rest := Split(s[1..], sep);
      if s[0] == sep then
        assert ([[]] + rest)[1..] == rest;
        [[]] + rest
      else
        var r := [[s[0]] + rest[0]] + rest[1..];
        assert r[1..] == rest[1..];
        r
  }

  /** Every character of a piece comes from the split string. */
  lemma {:induction false} SplitPieceChars(s: string, sep: char, k: nat)
    requires k < |Split(s, sep)|
    ensures forall c :: c in Split(s, sep)[k] ==> c in s
  {
    if s != [] {
      var rest := Split(s[1..], sep);
      if s[0] == sep {
        if k > 0 {
          SplitPieceChars(s[1..], sep, k - 1);
        }
      } else if k == 0 {
        SplitPieceChars(s[1..], sep, 0);
      } else {
        SplitPieceChars(s[1..], sep, k);
      }
    }
  }

  lemma {:induction false} SplitNoSeparator(s: string, sep: char)
    requires sep !in s
    ensures Split(s, sep) == [s]
  {
    if s != [] {
      SplitNoSeparator(s[1..], sep);
    }
  }

  lemma {:induction false} SplitAfterPiece(piece: string, sep: char, tail: string)
    requires sep !in piece
    ensures Split(piece + [sep] + tail, sep) == [piece] + Split(tail, sep)
  {
    if piece == [] {
      assert piece + [sep] + tail == [sep] + tail;
      assert ([sep] + tail)[1..] == tail;
    } else {
      var s := piece + [sep] + tail;
      assert s[0] == piece[0] && piece[0] != sep;
      assert s[1..] == piece[1..] + [sep] + tail;
      SplitAfterPiece(piece[1..], sep, tail);
      assert [piece[0]] + piece[1..] == piece;
    }
  }

  /** Splitting a join of separator-free pieces gives the pieces back. */
  lemma {:induction false} SplitJoin(pieces: seq<string>, sep: char)
    requires |pieces| >= 1
    requires forall k :: 0 <= k < |pieces| ==> sep !in pieces[k]
    ensures Split(Join(pieces, sep), sep) == pieces
  {
    if |pieces| == 1 {
      SplitNoSeparator(pieces[0], sep);
    } else {
      SplitAfterPiece(pieces[0], sep, Join(pieces[1..], sep));
      SplitJoin(pieces[1..], sep);
    }
  }
}
