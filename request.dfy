/** The two extractors the handlers apply to the raw request text
    (src/main.rs `get_id` and `get_carrera_request_body`) and Rust's
    `str::parse::<i32>` that turns the extracted id into a number. */
module Request {
  import opened Wrappers
  import opened Text

  /** The blank line that ends an HTTP header block. */
  const Separator: string := "\r\n\r\n"

  /** `get_id`: the third `/`-separated piece of the request (the piece after
      `/carreras/` in a request line), cut down to its first
      whitespace-separated token; "" when either step finds nothing. */
  function GetId(request: string): string
  {
    var pieces := Split(request, "/");
    FirstToken(if |pieces| > 2 then pieces[2] else "")
  }

  /** The id never holds a slash or whitespace. */
  lemma GetIdShape(request: string)
    ensures '/' !in GetId(request)
    ensures NoWhitespace(GetId(request))
  {
    var pieces := Split(request, "/");
    var piece := if |pieces| > 2 then pieces[2] else "";
    PiecesAvoidSeparator(request, "/");
    CharAbsent(piece, '/');
    FirstTokenChars(piece);
  }

  /** A request without a slash has no id. */
  lemma GetIdWithoutSlash(request: string)
    requires '/' !in request
    ensures GetId(request) == ""
  {
    if Contains(request, "/") {
      ContainsSlash(request);
    }
    SplitWithoutSeparator(request, "/");
  }

  lemma {:induction false} ContainsSlash(s: string)
    requires Contains(s, "/")
    ensures '/' in s
    decreases |s|
  {
    if StartsWith(s, "/") {
      assert s[0] == s[..1][0];
    } else {
      ContainsSlash(s[1..]);
      assert exists i :: 1 <= i < |s| && s[i] == '/' by {
        var j :| 0 <= j < |s[1..]| && s[1..][j] == '/';
        assert s[j + 1] == '/';
      }
    }
  }

  /** For a request whose line starts `<a>/<b>/<id> ...`, where `a` and `b`
      hold no slash and `id` is a non-empty token without slash or
      whitespace, `get_id` gives back exactly `id`. */
  lemma GetIdOf(a: string, b: string, id: string, ws: char, tail: string)
    requires '/' !in a && '/' !in b && '/' !in id
    requires id != "" && NoWhitespace(id) && IsWhitespace(ws)
    ensures GetId(a + "/" + b + "/" + id + [ws] + tail) == id
  {
    var rest := id + [ws] + tail;
    var req := a + "/" + b + "/" + id + [ws] + tail;
    assert req == a + ['/'] + (b + ['/'] + rest);
    SplitAfterPiece(a, '/', b + ['/'] + rest);
    SplitAfterPiece(b, '/', rest);
    assert Split(req, "/")[2] == Split(rest, "/")[0];
    assert rest == (id + [ws]) + tail;
    FirstPieceOf(id + [ws], '/', tail);
    assert Split(rest, "/")[0] == id + [ws] + Split(tail, "/")[0];
    FirstTokenOfToken(id, ws, Split(tail, "/")[0]);
  }

  /** Whitespace between the second slash and the id is skipped:
      `<a>/<b>/<lead><id><ws>...` names `id` for all-whitespace `lead`. */
  lemma GetIdAfterWhitespace(a: string, b: string, lead: string, id: string, ws: char, tail: string)
    requires '/' !in a && '/' !in b && '/' !in id && AllWhitespace(lead)
    requires id != "" && NoWhitespace(id) && IsWhitespace(ws)
    ensures GetId(a + "/" + b + "/" + lead + id + [ws] + tail) == id
  {
    var rest := lead + id + [ws] + tail;
    var req := a + "/" + b + "/" + lead + id + [ws] + tail;
    assert req == a + ['/'] + (b + ['/'] + rest);
    SplitAfterPiece(a, '/', b + ['/'] + rest);
    SplitAfterPiece(b, '/', rest);
    assert Split(req, "/")[2] == Split(rest, "/")[0];
    assert '/' !in lead + id + [ws] by {
      assert forall i :: 0 <= i < |lead| ==> lead[i] != '/';
    }
    assert rest == (lead + id + [ws]) + tail;
    FirstPieceOf(lead + id + [ws], '/', tail);
    assert Split(rest, "/")[0] == lead + id + [ws] + Split(tail, "/")[0];
    FirstTokenAfterWhitespace(lead, id, ws, Split(tail, "/")[0]);
  }

  /** `get_carrera_request_body`, the part before decoding: the last piece of
      `request.split("\r\n\r\n")`. */
  function RequestBody(request: string): string
  {
    var pieces := Split(request, Separator);
    pieces[|pieces| - 1]
  }

  /** The body is a suffix of the request that holds no blank-line separator;
      it is the whole request when there is no separator, and otherwise it
      is preceded in the request by a separator. */
  lemma RequestBodyShape(request: string)
    ensures var body := RequestBody(request);
      && |body| <= |request|
      && request[|request| - |body|..] == body
      && !Contains(body, Separator)
      && (!Contains(request, Separator) ==> body == request)
      && (Contains(request, Separator) ==>
            |body| + |Separator| <= |request|
            && request[|request| - |body| - |Separator|..] == Separator + body)
  {
    var pieces := Split(request, Separator);
    var body := pieces[|pieces| - 1];
    PiecesAvoidSeparator(request, Separator);
    if !Contains(request, Separator) {
      SplitWithoutSeparator(request, Separator);
    } else {
      SplitWithSeparator(request, Separator);
      JoinLast(pieces, Separator);
      var front := Join(pieces[..|pieces| - 1], Separator);
      assert request == front + (Separator + body);
    }
  }

  /** No blank line starts inside a header block exactly when the block
      neither holds one nor ends in `\r\n`, which would start a match one
      character early. */
  lemma NoEarlierMatchSeparator(head: string)
    ensures NoEarlierMatch(head, Separator) <==>
      !Contains(head, Separator) && !EndsInCrLf(head)
  {
    var w := (head + Separator)[..|head| + 3];
    ContainsAt(w, Separator);
    ContainsAt(head, Separator);
    if exists i :: OccursAt(w, Separator, i) {
      var i :| OccursAt(w, Separator, i);
      MatchInWindow(head, i);
    }
    if exists i :: OccursAt(head, Separator, i) {
      var i :| OccursAt(head, Separator, i);
      WindowKeepsMatch(head, i);
    }
    if EndsInCrLf(head) {
      WindowMatchAtEnd(head);
    }
  }

  /** `s` ends in CR LF. */
  predicate EndsInCrLf(s: string)
  {
    |s| >= 2 && s[|s| - 2..] == "\r\n"
  }

  /** A match in the window before the cut lies inside the block, or is
      the one that starts at a trailing `\r\n`. */
  lemma MatchInWindow(head: string, i: int)
    requires OccursAt((head + Separator)[..|head| + 3], Separator, i)
    ensures OccursAt(head, Separator, i) || EndsInCrLf(head)
  {
    var w := (head + Separator)[..|head| + 3];
    if i + 4 <= |head| {
      assert w[i..i + 4] == head[i..i + 4];
    } else {
      assert w[|head|] == '\r' && w[|head| + 1] == '\n' && w[|head| + 2] == '\r';
      assert w[i + 1] == '\n' && w[i + 3] == '\n';
      assert i == |head| - 2;
      assert head[|head| - 2..] == w[i..i + 2];
    }
  }

  lemma WindowKeepsMatch(head: string, i: int)
    requires OccursAt(head, Separator, i)
    ensures OccursAt((head + Separator)[..|head| + 3], Separator, i)
  {
    var w := (head + Separator)[..|head| + 3];
    assert w[i..i + 4] == head[i..i + 4];
  }

  lemma WindowMatchAtEnd(head: string)
    requires EndsInCrLf(head)
    ensures OccursAt((head + Separator)[..|head| + 3], Separator, |head| - 2)
  {
    var w := (head + Separator)[..|head| + 3];
    var n := |head|;
    assert head[n - 2] == '\r' && head[n - 1] == '\n';
    assert w[n - 2] == '\r' && w[n - 1] == '\n' && w[n] == '\r' && w[n + 1] == '\n';
    assert w[n - 2..n + 2] == Separator;
  }

  /** A request made of a header block, the blank line that ends it and a
      body: when no blank line starts inside the header block (it neither
      holds one nor ends in `\r\n`, which would start a match one
      character early) and the body holds none, the body extracted is
      exactly that body. */
  lemma RequestBodyAfterHead(head: string, body: string)
    requires NoEarlierMatch(head, Separator) && !Contains(body, Separator)
    ensures RequestBody(head + Separator + body) == body
  {
    NoEarlierMatchAvoids(head, Separator);
    var pieces := [head, body];
    assert pieces[1..] == [body];
    SplitUnique(head + Separator + body, Separator, pieces);
  }

  /** Left-to-right splitting is not "after the last occurrence": in
      `a\r\n\r\n\r\nb` the first `\r\n\r\n` is consumed as the cut, so the
      body keeps the remaining `\r\n`. */
  lemma RequestBodyOverlap()
    ensures RequestBody("a\r\n\r\n\r\nb") == "\r\nb"
  {
    var s := "a\r\n\r\n\r\nb";
    assert !StartsWith(s, Separator);
    assert s[1..] == "\r\n\r\n\r\nb";
    assert StartsWith(s[1..], Separator);
    assert s[1..][4..] == "\r\nb";
    assert !Contains("\r\nb", Separator) by {
      assert !StartsWith("\r\nb", Separator);
      assert "\r\nb"[1..] == "\nb";
      assert "\nb"[1..] == "b";
      assert "b"[1..] == "";
    }
    SplitWithoutSeparator("\r\nb", Separator);
  }

  // ---- Rust's `str::parse::<i32>` ----

  const MinI32: int := -0x8000_0000
  const MaxI32: int := 0x7fff_ffff

  predicate IsDigit(ch: char)
  {
    '0' <= ch <= '9'
  }

  predicate AllDigits(s: string)
  {
    forall i :: 0 <= i < |s| ==> IsDigit(s[i])
  }

  /** The value of a string of decimal digits. */
  function DigitsValue(s: string): nat
    requires AllDigits(s)
  {
    if |s| == 0 then 0
    else DigitsValue(s[..|s| - 1]) * 10 + (s[|s| - 1] as int - '0' as int)
  }

  /** `s.parse::<i32>()`: an optional `+` or `-`, then one or more ASCII
      digits whose value fits in 32 bits; anything else is an error. */
  function ParseI32(s: string): (r: Option<int>)
    ensures r.Some? ==> MinI32 <= r.value <= MaxI32
    ensures r.Some? ==> s != "" && forall i :: 0 < i < |s| ==> IsDigit(s[i])
  {
    if |s| == 0 then None
    else if s[0] == '+' || s[0] == '-' then
      var digits := s[1..];
      if |digits| == 0 || !AllDigits(digits) then None
      else
        var v: int := if s[0] == '-' then -(DigitsValue(digits) as int) else DigitsValue(digits);
        if MinI32 <= v <= MaxI32 then Some(v) else None
    else if AllDigits(s) && DigitsValue(s) <= MaxI32 then Some(DigitsValue(s))
    else None
  }

  /** The decimal numeral of a natural number, without leading zeros. */
  function ShowNat(n: nat): (s: string)
    ensures |s| >= 1 && AllDigits(s) && DigitsValue(s) == n
  {
    var d := [('0' as int + n % 10) as char];
    if n < 10 then d
    else
      var front := ShowNat(n / 10);
      var s := front + d;
      assert s[..|s| - 1] == front;
      s
  }

  /** `n.to_string()` for an integer: the ids as a client writes them. */
  function ShowInt(n: int): string
  {
    if n < 0 then "-" + ShowNat(-n) else ShowNat(n)
  }

  /** Every 32-bit integer written in decimal parses back to itself. */
  lemma ParseShowInt(n: int)
    requires MinI32 <= n <= MaxI32
    ensures ParseI32(ShowInt(n)) == Some(n)
  {
    if n < 0 {
      assert ShowInt(n)[1..] == ShowNat(-n);
    } else {
      assert IsDigit(ShowNat(n)[0]);
    }
  }

  /** A decimal numeral is a token without slash or whitespace. */
  lemma ShowIntShape(n: int)
    ensures ShowInt(n) != ""
    ensures '/' !in ShowInt(n)
    ensures NoWhitespace(ShowInt(n))
  {
    var s := ShowInt(n);
    if n < 0 {
      assert forall i :: 1 <= i < |s| ==> s[i] == ShowNat(-n)[i - 1];
    }
  }
}
