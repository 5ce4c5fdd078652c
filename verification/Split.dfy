// string_split (archive/legacy-dirtynet/core/util.cc) and its inverse.

module Splitting {

  /** size_t's largest value, which searches return for "not found". */
  const NPOS := 0xFFFF_FFFF_FFFF_FFFF

  /** A string_view: its size is a size_t below npos. */
  type View = s: string | |s| < NPOS

  /** string_view::find_first_of for one character, from a position on. */
  function FindFirstOf(str: View, delim: char, start: nat): (next: nat)
    ensures next == NPOS <==> delim !in str[if start <= |str| then start else |str|..]
    ensures next != NPOS ==> start <= next < |str| && str[next] == delim && delim !in str[start..next]
    decreases |str| - start
  {
    if start >= |str| then NPOS
    else if str[start] == delim then start
    else
      var next := FindFirstOf(str, delim, start + 1);
      assert str[start..] == [str[start]] + str[start + 1..];
      assert next != NPOS ==> str[start..next] == [str[start]] + str[start + 1..next];
      next
  }

  /** string_view::substr, whose count is cut to what is there. */
  function Substr(str: View, at: nat, count: nat): string
    requires at <= |str|
  {
    str[at..if count <= |str| - at then at + count else |str|]
  }

  /** The pieces of a string between delimiters, one character at a time. */
  function Split(str: string, delim: char): (pieces: seq<string>)
    ensures |pieces| >= 1
  {
    if str == "" then [""]
    else
      var later := Split(str[1..], delim);
      if str[0] == delim then [""] + later else [[str[0]] + later[0]] + later[1..]
  }

  function Join(pieces: seq<string>, delim: char): string
    requires |pieces| >= 1
  {
    if |pieces| == 1 then pieces[0] else pieces[0] + [delim] + Join(pieces[1..], delim)
  }

  function Count(str: string, delim: char): nat {
    if str == "" then 0 else (if str[0] == delim then 1 else 0) + Count(str[1..], delim)
  }

  /** Splitting at a delimiter with none before it. */
  lemma {:induction false} SplitAtFirst(str: string, delim: char, i: nat)
    requires i < |str| && str[i] == delim && delim !in str[..i]
    ensures Split(str, delim) == [str[..i]] + Split(str[i + 1..], delim)
  {
    if i == 0 {
    } else {
      assert str[..i] == [str[0]] + str[1..][..i - 1];
      assert str[1..][i..] == str[i + 1..];
      SplitAtFirst(str[1..], delim, i - 1);
    }
  }

  lemma {:induction false} SplitNone(str: string, delim: char)
    requires delim !in str
    ensures Split(str, delim) == [str]
  {
    if str == "" {
    } else {
      SplitNone(str[1..], delim);
      assert str == [str[0]] + str[1..];
    }
  }

  lemma SplitAtCursor(str: string, delim: char, start: nat, next: nat)
    requires start <= next < |str| && str[next] == delim && delim !in str[start..next]
    ensures Split(str[start..], delim) == [str[start..next]] + Split(str[next + 1..], delim)
  {
    hide Split;
    var later, i := str[start..], next - start;
    assert later[..i] == str[start..next];
    assert later[i + 1..] == str[next + 1..];
    SplitAtFirst(later, delim, i);
  }

  lemma CursorStep(str: View, delim: char, start: nat, next: nat)
    requires start <= |str| && next == FindFirstOf(str, delim, start) != NPOS
    ensures start <= next < |str|
    ensures Split(str[start..], delim) == [Substr(str, start, next - start)] + Split(str[next + 1..], delim)
  {
    hide FindFirstOf, Split;
    SplitAtCursor(str, delim, start, next);
  }

  lemma CursorEnd(str: View, delim: char, start: nat)
    requires start <= |str| && FindFirstOf(str, delim, start) == NPOS
    ensures Split(str[start..], delim) == [Substr(str, start, NPOS - start)]
  {
    hide FindFirstOf, Split;
    assert NPOS - start > |str| - start;
    assert Substr(str, start, NPOS - start) == str[start..];
    SplitNone(str[start..], delim);
  }

  /** string_split: a cursor that jumps from delimiter to delimiter. */
  method StringSplit(str: View, delim: char) returns (strs: seq<string>)
    ensures strs == Split(str, delim)
  {
    hide FindFirstOf, Split, Substr;
    strs := [];
    var start := 0;
    assert str[0..] == str;
    var next := FindFirstOf(str, delim, 0);
    while next <= NPOS
      invariant start <= |str|
      invariant next == FindFirstOf(str, delim, start)
      invariant strs + Split(str[start..], delim) == Split(str, delim)
      decreases |str| - start
    {
      if next == NPOS {
        break;
      }
      CursorStep(str, delim, start, next);
      strs := strs + [Substr(str, start, next - start)];
      start := next + 1;
      next := FindFirstOf(str, delim, start);
    }
    CursorEnd(str, delim, start);
    strs := strs + [Substr(str, start, next - start)];
  }

  // ----- Split and join are inverse -----

  /** The first character of a string joins the first piece, or makes it empty. */
  lemma JoinFirst(first: string, pieces: seq<string>, delim: char)
    requires |pieces| >= 1
    ensures Join([first + pieces[0]] + pieces[1..], delim) == first + Join(pieces, delim)
  {
  }

  /** Joining the pieces restores the string; no piece contains the delimiter; and there is one piece
      more than there are delimiters. */
  lemma {:induction false} JoinOfSplit(str: string, delim: char)
    ensures Join(Split(str, delim), delim) == str
    ensures forall p :: p in Split(str, delim) ==> delim !in p
    ensures |Split(str, delim)| == Count(str, delim) + 1
  {
    if str == "" {
    } else {
      var later := Split(str[1..], delim);
      JoinOfSplit(str[1..], delim);
      assert str == [str[0]] + str[1..];
      if str[0] == delim {
        assert ([""] + later)[1..] == later;
      } else {
        JoinFirst([str[0]], later, delim);
        assert delim !in later[0];
        assert forall p :: p in later[1..] ==> p in later;
      }
    }
  }

  /** Splitting what was joined from delimiter-free pieces returns the pieces. */
  lemma {:induction false} SplitOfJoin(pieces: seq<string>, delim: char)
    requires |pieces| >= 1 && forall p :: p in pieces ==> delim !in p
    ensures Split(Join(pieces, delim), delim) == pieces
  {
    var str := Join(pieces, delim);
    assert delim !in pieces[0];
    if |pieces| == 1 {
      SplitNone(str, delim);
    } else {
      var n := |pieces[0]|;
      assert str[..n] == pieces[0] && str[n] == delim && str[n + 1..] == Join(pieces[1..], delim);
      assert forall p :: p in pieces[1..] ==> p in pieces;
      SplitOfJoin(pieces[1..], delim);
      SplitAtFirst(str, delim, n);
    }
  }
}
