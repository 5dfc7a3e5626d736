/** The string operations of Rust's `str` that the request parser relies on:
    `starts_with`, `split` on a string pattern, and `split_whitespace`. */
module Text {

  /** `s.starts_with(p)` */
  predicate StartsWith(s: string, p: string)
  {
    |p| <= |s| && s[..|p|] == p
  }

  /** `t` occurs somewhere in `s` as a contiguous substring. */
  predicate Contains(s: string, t: string)
    decreases |s|
  {
    StartsWith(s, t) || (|s| > 0 && Contains(s[1..], t))
  }

  lemma {:induction false} ContainsNotLonger(s: string, t: string)
    requires Contains(s, t)
    ensures |t| <= |s|
    decreases |s|
  {
    if !StartsWith(s, t) {
      ContainsNotLonger(s[1..], t);
    }
  }

  /** A string that does not contain the one-character string `[c]` has no `c`. */
  lemma {:induction false} CharAbsent(s: string, c: char)
    requires !Contains(s, [c])
    ensures c !in s
    decreases |s|
  {
    if |s| > 0 {
      assert s[..1] == [s[0]];
      CharAbsent(s[1..], c);
      assert s == [s[0]] + s[1..];
    }
  }

  /** The pieces of `s.split(sep)`: the text between the leftmost
      non-overlapping occurrences of `sep`, scanned from left to right.
      There is always at least one piece, and joining them back gives `s`. */
  function Split(s: string, sep: string): (pieces: seq<string>)
    requires |sep| > 0
    ensures |pieces| >= 1
    ensures Join(pieces, sep) == s
    decreases |s|
  {
    if |s| < |sep| then [s]
    else if StartsWith(s, sep) then
      var rest := Split(s[|sep|..], sep);
      assert s == s[..|sep|] + s[|sep|..];
      [""] + rest
    else
      var rest := Split(s[1..], sep);
      var first := [s[0]] + rest[0];
      assert s == [s[0]] + s[1..];
      assert ([first] + rest[1..])[1..] == rest[1..];
      [first] + rest[1..]
  }

  /** The pieces put back together with `sep` between consecutive ones. */
  function Join(pieces: seq<string>, sep: string): string
    requires |pieces| >= 1
  {
    if |pieces| == 1 then pieces[0] else pieces[0] + sep + Join(pieces[1..], sep)
  }

  /** The first piece of a split is a prefix of the split string. */
  lemma FirstPieceIsPrefix(s: string, sep: string)
    requires |sep| > 0
    ensures StartsWith(s, Split(s, sep)[0])
  {
    var pieces := Split(s, sep);
    if |pieces| > 1 {
      assert s == pieces[0] + (sep + Join(pieces[1..], sep));
    }
  }

  /** No piece of a split contains the separator: every occurrence of `sep`
      in `s` was consumed as a cut. */
  lemma {:induction false} PiecesAvoidSeparator(s: string, sep: string)
    requires |sep| > 0
    ensures forall i :: 0 <= i < |Split(s, sep)| ==> !Contains(Split(s, sep)[i], sep)
    decreases |s|
  {
    var pieces := Split(s, sep);
    if |s| < |sep| {
      if Contains(s, sep) {
        ContainsNotLonger(s, sep);
      }
    } else if StartsWith(s, sep) {
      PiecesAvoidSeparator(s[|sep|..], sep);
      assert !Contains("", sep);
      assert forall i :: 1 <= i < |pieces| ==> pieces[i] == Split(s[|sep|..], sep)[i - 1];
    } else {
      var rest := Split(s[1..], sep);
      PiecesAvoidSeparator(s[1..], sep);
      FirstPieceIsPrefix(s[1..], sep);
      var first := [s[0]] + rest[0];
      assert first[1..] == rest[0];
      assert first == s[..|first|];
      assert !Contains(first, sep);
      assert forall i :: 1 <= i < |pieces| ==> pieces[i] == rest[i];
    }
  }

  /** No occurrence of `sep` starts inside `piece`, when `piece` is followed
      by the cut `sep`: the leftmost match after the previous cut is this
      one. */
  predicate NoEarlierMatch(piece: string, sep: string)
    requires |sep| > 0
  {
    !Contains((piece + sep)[..|piece| + |sep| - 1], sep)
  }

  /** `split` cuts at the leftmost non-overlapping matches: no occurrence
      of `sep` begins inside a piece before the cut that ends it. */
  lemma {:induction false} SplitLeftmost(s: string, sep: string)
    requires |sep| > 0
    ensures forall i :: 0 <= i < |Split(s, sep)| - 1 ==> NoEarlierMatch(Split(s, sep)[i], sep)
    decreases |s|
  {
    var pieces := Split(s, sep);
    if |s| < |sep| {
    } else if StartsWith(s, sep) {
      var rest := Split(s[|sep|..], sep);
      SplitLeftmost(s[|sep|..], sep);
      var cut := ("" + sep)[..|sep| - 1];
      if Contains(cut, sep) {
        ContainsNotLonger(cut, sep);
      }
      assert forall i :: 1 <= i < |pieces| ==> pieces[i] == rest[i - 1];
    } else {
      var rest := Split(s[1..], sep);
      SplitLeftmost(s[1..], sep);
      if |rest| > 1 {
        var first := [s[0]] + rest[0];
        var y := (rest[0] + sep)[..|rest[0]| + |sep| - 1];
        var x := (first + sep)[..|first| + |sep| - 1];
        assert x == [s[0]] + y;
        assert x[1..] == y;
        assert s[1..] == rest[0] + sep + Join(rest[1..], sep);
        assert x == s[..|x|];
        assert !StartsWith(x, sep) by {
          if |sep| <= |x| {
            assert x[..|sep|] == s[..|sep|];
          }
        }
      }
      assert forall i :: 1 <= i < |pieces| ==> pieces[i] == rest[i];
    }
  }

  /** Dropping the first character of a piece keeps its cut leftmost. */
  lemma NoEarlierMatchTail(p: string, sep: string)
    requires |sep| > 0 && |p| > 0 && NoEarlierMatch(p, sep)
    ensures NoEarlierMatch(p[1..], sep)
  {
    var x := (p + sep)[..|p| + |sep| - 1];
    assert p[1..] + sep == (p + sep)[1..];
    assert (p[1..] + sep)[..|p| - 1 + |sep| - 1] == x[1..];
  }

  /** A piece followed by a leftmost cut: the text does not start with the
      separator when the piece is not empty. */
  lemma CutNotAtStart(p: string, sep: string, tail: string)
    requires |sep| > 0 && |p| > 0 && NoEarlierMatch(p, sep)
    ensures !StartsWith(p + sep + tail, sep)
    ensures (p + sep + tail)[1..] == p[1..] + sep + tail
  {
    var s := p + sep + tail;
    var x := (p + sep)[..|p| + |sep| - 1];
    assert x == s[..|x|];
  }

  lemma {:induction false} ContainsExtend(a: string, b: string, t: string)
    requires Contains(a, t)
    ensures Contains(a + b, t)
    decreases |a|
  {
    if StartsWith(a, t) {
      assert (a + b)[..|t|] == a[..|t|];
    } else {
      ContainsExtend(a[1..], b, t);
      assert (a + b)[1..] == a[1..] + b;
    }
  }

  /** `t` occurs in `s` starting at index `i`. */
  predicate OccursAt(s: string, t: string, i: int)
  {
    0 <= i && i + |t| <= |s| && s[i..i + |t|] == t
  }

  /** `Contains` as a position: `t` occurs in `s` exactly when it occurs
      at some index. */
  lemma {:induction false} ContainsAt(s: string, t: string)
    ensures Contains(s, t) <==> exists i :: OccursAt(s, t, i)
    decreases |s|
  {
    if StartsWith(s, t) {
      assert OccursAt(s, t, 0);
    } else if |s| > 0 {
      ContainsAt(s[1..], t);
      if Contains(s[1..], t) {
        var j :| OccursAt(s[1..], t, j);
        assert s[j + 1..j + 1 + |t|] == s[1..][j..j + |t|];
        assert OccursAt(s, t, j + 1);
      }
      if exists i :: OccursAt(s, t, i) {
        var i :| OccursAt(s, t, i);
        assert i != 0;
        assert s[1..][i - 1..i - 1 + |t|] == s[i..i + |t|];
        assert OccursAt(s[1..], t, i - 1);
      }
    } else {
      assert forall i :: !OccursAt(s, t, i);
    }
  }

  /** A piece whose cut is leftmost holds no separator itself. */
  lemma NoEarlierMatchAvoids(p: string, sep: string)
    requires |sep| > 0 && NoEarlierMatch(p, sep)
    ensures !Contains(p, sep)
  {
    var x := (p + sep)[..|p| + |sep| - 1];
    assert x == p + sep[..|sep| - 1];
    if Contains(p, sep) {
      ContainsExtend(p, sep[..|sep| - 1], sep);
    }
  }

  /** The three properties pin the split down: any pieces that join back to
      `s`, hold no separator and are cut at the leftmost matches are exactly
      `Split(s, sep)`. */
  lemma {:induction false} SplitUnique(s: string, sep: string, pieces: seq<string>)
    requires |sep| > 0 && |pieces| >= 1 && Join(pieces, sep) == s
    requires forall i :: 0 <= i < |pieces| ==> !Contains(pieces[i], sep)
    requires forall i :: 0 <= i < |pieces| - 1 ==> NoEarlierMatch(pieces[i], sep)
    ensures pieces == Split(s, sep)
    decreases |s|
  {
    if |pieces| == 1 {
      SplitWithoutSeparator(s, sep);
    } else if pieces[0] == "" {
      var tail := Join(pieces[1..], sep);
      assert s == sep + tail;
      assert StartsWith(s, sep);
      assert s[|sep|..] == tail;
      assert forall i :: 0 <= i < |pieces| - 1 ==> pieces[1..][i] == pieces[i + 1];
      SplitUnique(tail, sep, pieces[1..]);
      assert pieces == [""] + pieces[1..];
    } else {
      var p0 := pieces[0];
      var tail := Join(pieces[1..], sep);
      assert s == p0 + sep + tail;
      CutNotAtStart(p0, sep, tail);
      NoEarlierMatchTail(p0, sep);
      var q := [p0[1..]] + pieces[1..];
      assert q[1..] == pieces[1..];
      assert Join(q, sep) == s[1..];
      assert !Contains(p0[1..], sep);
      assert forall i :: 1 <= i < |q| ==> q[i] == pieces[i];
      SplitUnique(s[1..], sep, q);
      assert [s[0]] + p0[1..] == p0;
    }
  }

  /** A string without the separator splits into itself alone. */
  lemma {:induction false} SplitWithoutSeparator(s: string, sep: string)
    requires |sep| > 0
    requires !Contains(s, sep)
    ensures Split(s, sep) == [s]
    decreases |s|
  {
    if |s| >= |sep| {
      assert !StartsWith(s, sep);
      SplitWithoutSeparator(s[1..], sep);
      assert [s[0]] + s[1..] == s;
    }
  }

  /** A string that holds the separator splits into at least two pieces. */
  lemma SplitWithSeparator(s: string, sep: string)
    requires |sep| > 0
    requires Contains(s, sep)
    ensures |Split(s, sep)| >= 2
  {
    PiecesAvoidSeparator(s, sep);
  }

  /** Joining splits off the last piece with a separator in front of it. */
  lemma {:induction false} JoinLast(pieces: seq<string>, sep: string)
    requires |pieces| >= 2
    ensures Join(pieces, sep) == Join(pieces[..|pieces| - 1], sep) + sep + pieces[|pieces| - 1]
    decreases |pieces|
  {
    if |pieces| > 2 {
      var tail := pieces[1..];
      JoinLast(tail, sep);
      assert tail[..|tail| - 1] == pieces[..|pieces| - 1][1..];
    }
  }

  /** With a one-character separator, a piece free of it followed by the
      separator splits off as exactly that piece. */
  lemma {:induction false} SplitAfterPiece(a: string, c: char, b: string)
    requires c !in a
    ensures Split(a + [c] + b, [c]) == [a] + Split(b, [c])
    decreases |a|
  {
    var s := a + [c] + b;
    if |a| == 0 {
      assert s == [c] + b;
      assert StartsWith(s, [c]);
      assert s[1..] == b;
    } else {
      assert s[0] == a[0];
      assert s[..1] != [c];
      assert s[1..] == a[1..] + [c] + b;
      SplitAfterPiece(a[1..], c, b);
      assert [s[0]] + a[1..] == a;
    }
  }

  /** With a one-character separator, a first piece free of it extends the
      first piece of what follows. */
  lemma {:induction false} FirstPieceOf(x: string, c: char, y: string)
    requires c !in x
    ensures Split(x + y, [c])[0] == x + Split(y, [c])[0]
    decreases |x|
  {
    if |x| > 0 {
      var s := x + y;
      assert s[0] == x[0];
      assert s[..1] != [c];
      assert s[1..] == x[1..] + y;
      FirstPieceOf(x[1..], c, y);
      assert [x[0]] + x[1..] == x;
    } else {
      assert x + y == y;
    }
  }

  /** Rust's `char::is_whitespace`: the characters with the Unicode
      `White_Space` property. */
  predicate IsWhitespace(ch: char)
  {
    var n := ch as int;
    (0x09 <= n <= 0x0D) || n == 0x20 || n == 0x85 || n == 0xA0 || n == 0x1680
    || (0x2000 <= n <= 0x200A) || n == 0x2028 || n == 0x2029 || n == 0x202F
    || n == 0x205F || n == 0x3000
  }

  predicate NoWhitespace(s: string)
  {
    forall i :: 0 <= i < |s| ==> !IsWhitespace(s[i])
  }

  predicate AllWhitespace(s: string)
  {
    forall i :: 0 <= i < |s| ==> IsWhitespace(s[i])
  }

  /** `s.trim_start()`: what is left after the leading whitespace. */
  function SkipWhitespace(s: string): (r: string)
    ensures |r| <= |s| && r == s[|s| - |r|..]
    ensures AllWhitespace(s[..|s| - |r|])
    ensures r == "" || !IsWhitespace(r[0])
    decreases |s|
  {
    if |s| > 0 && IsWhitespace(s[0]) then SkipWhitespace(s[1..]) else s
  }

  /** The longest prefix of `s` without whitespace. */
  function TakeToken(s: string): (r: string)
    ensures StartsWith(s, r)
    ensures NoWhitespace(r)
    ensures |r| == |s| || IsWhitespace(s[|r|])
    decreases |s|
  {
    if |s| == 0 || IsWhitespace(s[0]) then ""
    else
      var rest := TakeToken(s[1..]);
      assert s[1..][..|rest|] == rest;
      [s[0]] + rest
  }

  /** `s.split_whitespace().next().unwrap_or_default()`: the first maximal
      run of non-whitespace characters, or "" when `s` is all whitespace. */
  function FirstToken(s: string): string
  {
    TakeToken(SkipWhitespace(s))
  }

  /** The first token is a whitespace-free substring of `s` that is preceded
      only by whitespace and followed by whitespace or the end of `s`. */
  lemma FirstTokenShape(s: string)
    ensures var t := FirstToken(s); var lead := |s| - |SkipWhitespace(s)|;
      && lead + |t| <= |s|
      && s[lead..lead + |t|] == t
      && AllWhitespace(s[..lead])
      && NoWhitespace(t)
      && (lead + |t| == |s| || IsWhitespace(s[lead + |t|]))
  {
    var rest := SkipWhitespace(s);
    var t := TakeToken(rest);
    assert FirstToken(s) == t;
    assert AllWhitespace(s[..|s| - |rest|]) && NoWhitespace(t);
    PlaceToken(s, rest, t);
  }

  /** Where a token of the remainder `rest` sits in `s`. */
  lemma PlaceToken(s: string, rest: string, t: string)
    requires |rest| <= |s| && rest == s[|s| - |rest|..]
    requires StartsWith(rest, t) && (|t| == |rest| || IsWhitespace(rest[|t|]))
    ensures var lead := |s| - |rest|;
      && lead + |t| <= |s|
      && s[lead..lead + |t|] == t
      && (lead + |t| == |s| || IsWhitespace(s[lead + |t|]))
  {
    var lead := |s| - |rest|;
    assert rest[..|t|] == t;
    assert s[lead..lead + |t|] == rest[..|t|];
    assert lead + |t| < |s| ==> s[lead + |t|] == rest[|t|];
  }

  /** Every character of the first token is a character of `s`. */
  lemma FirstTokenChars(s: string)
    ensures forall ch :: ch in FirstToken(s) ==> ch in s
  {
    var rest := SkipWhitespace(s);
    var t := TakeToken(rest);
    assert FirstToken(s) == t;
    assert |t| <= |rest| && rest[..|t|] == t;
    assert rest == s[|s| - |rest|..];
    forall ch | ch in t
      ensures ch in s
    {
      var i :| 0 <= i < |t| && t[i] == ch;
      assert rest[i] == ch;
      assert s[|s| - |rest| + i] == ch;
    }
  }

  /** The first token is empty exactly when `s` is all whitespace. */
  lemma FirstTokenEmpty(s: string)
    ensures FirstToken(s) == "" <==> AllWhitespace(s)
  {
    var rest := SkipWhitespace(s);
    var lead := |s| - |rest|;
    if rest != "" {
      assert s[lead] == rest[0];
      assert !IsWhitespace(s[lead]);
    } else {
      assert s == s[..lead];
    }
  }

  /** A token followed by whitespace is the longest whitespace-free prefix. */
  lemma {:induction false} TakeTokenOfToken(d: string, ws: char, tail: string)
    requires NoWhitespace(d) && IsWhitespace(ws)
    ensures TakeToken(d + [ws] + tail) == d
    decreases |d|
  {
    var s := d + [ws] + tail;
    if |d| > 0 {
      assert s[1..] == d[1..] + [ws] + tail;
      TakeTokenOfToken(d[1..], ws, tail);
      assert [d[0]] + d[1..] == d;
    } else {
      assert s[0] == ws;
    }
  }

  /** A non-empty token followed by whitespace is the first token. */
  lemma FirstTokenOfToken(d: string, ws: char, tail: string)
    requires d != "" && NoWhitespace(d) && IsWhitespace(ws)
    ensures FirstToken(d + [ws] + tail) == d
  {
    var s := d + [ws] + tail;
    assert s[0] == d[0];
    assert SkipWhitespace(s) == s;
    TakeTokenOfToken(d, ws, tail);
  }

  /** Leading whitespace does not change where the first token starts. */
  lemma {:induction false} SkipWhitespaceLead(lead: string, x: string)
    requires AllWhitespace(lead)
    ensures SkipWhitespace(lead + x) == SkipWhitespace(x)
    decreases |lead|
  {
    if |lead| > 0 {
      assert (lead + x)[0] == lead[0] && IsWhitespace(lead[0]);
      assert (lead + x)[1..] == lead[1..] + x;
      assert forall i :: 0 <= i < |lead| - 1 ==> lead[1..][i] == lead[i + 1];
      SkipWhitespaceLead(lead[1..], x);
    } else {
      assert lead + x == x;
    }
  }

  /** A token preceded by any whitespace and followed by a whitespace
      character is the first token. */
  lemma FirstTokenAfterWhitespace(lead: string, d: string, ws: char, tail: string)
    requires AllWhitespace(lead) && d != "" && NoWhitespace(d) && IsWhitespace(ws)
    ensures FirstToken(lead + d + [ws] + tail) == d
  {
    assert lead + d + [ws] + tail == lead + (d + [ws] + tail);
    SkipWhitespaceLead(lead, d + [ws] + tail);
    FirstTokenOfToken(d, ws, tail);
  }
}
