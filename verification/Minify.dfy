/** cJSON_Minify: removes blanks and comments in place, leaving string literals alone. */
module Minify {
  import opened Bytes
  import opened JsonText

  const SLASH: byte := 0x2f
  const STAR: byte := 0x2a
  const CR: byte := 0x0d

  predicate IsMinifyBlank(b: byte) {
    b == SPACE || b == TAB || b == CR || b == NEWLINE
  }

  predicate StartsWith(s: bytes, a: byte, b: byte) {
    |s| >= 2 && s[0] == a && s[1] == b
  }

  /** Bytes of a literal behind its opening quote, the closing quote included. */
  function StringSpan(s: bytes): (r: nat)
    ensures r <= |s|
  {
    if s == [] then 0
    else if s[0] == QUOTE then 1
    else if StartsWith(s, BACKSLASH, QUOTE) then 2 + StringSpan(s[2..])
    else 1 + StringSpan(s[1..])
  }

  /** Bytes of a line comment behind its two slashes, the newline included. */
  function LineSpan(s: bytes): (r: nat)
    ensures r <= |s|
  {
    if s == [] then 0 else if s[0] == NEWLINE then 1 else 1 + LineSpan(s[1..])
  }

  /** Bytes of a block comment behind its opening, the closing included. */
  function BlockSpan(s: bytes): (r: nat)
    ensures r <= |s|
  {
    if s == [] then 0 else if StartsWith(s, STAR, SLASH) then 2 else 1 + BlockSpan(s[1..])
  }

  function Minified(s: bytes): bytes {
    if s == [] then []
    else if IsMinifyBlank(s[0]) then Minified(s[1..])
    else if StartsWith(s, SLASH, SLASH) then Minified(s[2 + LineSpan(s[2..])..])
    else if StartsWith(s, SLASH, STAR) then Minified(s[2 + BlockSpan(s[2..])..])
    else if s[0] == SLASH then Minified(s[1..])
    else if s[0] == QUOTE then
      var n := 1 + StringSpan(s[1..]);
      s[..n] + Minified(s[n..])
    else [s[0]] + Minified(s[1..])
  }

  // ---- minifying twice ----

  /** A literal's span depends on the literal only: on all of the text, or up to its quote. */
  lemma {:induction false} StringSpanOfLiteral(s: bytes, t: bytes)
    requires StringSpan(s) < |s| || t == []
    ensures StringSpan(s[..StringSpan(s)] + t) == StringSpan(s)
    decreases |s|
  {
    var n := StringSpan(s);
    var u := s[..n] + t;
    if s != [] && s[0] != QUOTE {
      var k := if StartsWith(s, BACKSLASH, QUOTE) then 2 else 1;
      if n < |s| {
        StringSpanEnd(s);
      }
      assert n >= 2 || u == s;
      assert u[k..] == s[k..][..n - k] + t;
      StringSpanOfLiteral(s[k..], t);
    } else if s == [] {
      assert u == [];
    }
  }

  /** A literal that stops before the end of the text stops behind a quote. */
  lemma {:induction false} StringSpanEnd(s: bytes)
    requires StringSpan(s) < |s|
    ensures StringSpan(s) > 0 && s[StringSpan(s) - 1] == QUOTE
    decreases |s|
  {
    if s[0] == QUOTE {
    } else {
      var k := if StartsWith(s, BACKSLASH, QUOTE) then 2 else 1;
      StringSpanEnd(s[k..]);
    }
  }

  /** For every text, minifying the result once more changes nothing. */
  lemma {:induction false} MinifyIdempotent(s: bytes)
    ensures Minified(Minified(s)) == Minified(s)
    decreases |s|
  {
    if s == [] {
    } else if IsMinifyBlank(s[0]) {
      MinifyIdempotent(s[1..]);
    } else if StartsWith(s, SLASH, SLASH) {
      MinifyIdempotent(s[2 + LineSpan(s[2..])..]);
    } else if StartsWith(s, SLASH, STAR) {
      MinifyIdempotent(s[2 + BlockSpan(s[2..])..]);
    } else if s[0] == SLASH {
      MinifyIdempotent(s[1..]);
    } else if s[0] == QUOTE {
      var n := StringSpan(s[1..]);
      var rest := Minified(s[n + 1..]);
      var r := s[..n + 1] + rest;
      assert r[1..] == s[1..][..n] + rest;
      StringSpanOfLiteral(s[1..], rest);
      MinifyIdempotent(s[n + 1..]);
      assert r[..n + 1] == s[..n + 1] && r[n + 1..] == rest;
    } else {
      MinifyIdempotent(s[1..]);
      var r := [s[0]] + Minified(s[1..]);
      assert r[1..] == Minified(s[1..]);
    }
  }

  // ---- the program ----

  lemma StringSpanStep(s: bytes, r: nat, n: nat)
    requires r <= n <= |s|
    ensures StringSpan(s[r..n]) == (
              if r == n then 0
              else if s[r] == QUOTE then 1
              else if s[r] == BACKSLASH && r + 1 < n && s[r + 1] == QUOTE then 2 + StringSpan(s[r + 2..n])
              else 1 + StringSpan(s[r + 1..n]))
  {
    if r < n {
      assert s[r..n][1..] == s[r + 1..n];
      if r + 1 < n {
        assert s[r..n][2..] == s[r + 2..n];
      }
    }
  }

  lemma CommentSpanStep(s: bytes, r: nat, n: nat)
    requires r <= n <= |s|
    ensures LineSpan(s[r..n]) == (if r == n then 0 else if s[r] == NEWLINE then 1 else 1 + LineSpan(s[r + 1..n]))
    ensures BlockSpan(s[r..n]) == (
              if r == n then 0
              else if s[r] == STAR && r + 1 < n && s[r + 1] == SLASH then 2
              else 1 + BlockSpan(s[r + 1..n]))
  {
    if r < n {
      assert s[r..n][1..] == s[r + 1..n];
    }
  }

  /** `a` still holds the C string of `s` that ends at `n`, from position `r` on. */
  ghost predicate Intact(a: array<byte>, s: bytes, r: nat, n: nat)
    reads a
  {
    && r <= n < |s| == a.Length && s[n] == NUL && NulFree(s[r..n])
    && forall k :: r <= k < a.Length ==> a[k] == s[k]
  }

  lemma StartIntact(a: array<byte>, s: bytes, n: nat)
    requires n < a.Length && a[..] == s && a[n] == NUL && NulFree(a[..n])
    ensures Intact(a, s, 0, n)
  {
    assert s[0..n] == a[..n];
  }

  lemma IntactAt(a: array<byte>, s: bytes, r: nat, n: nat)
    requires Intact(a, s, r, n)
    ensures r <= n < |s| == a.Length && a[r] == s[r] && a[n] == s[n] && (a[r] != NUL <==> r < n)
    ensures r < n ==> a[r + 1] == s[r + 1] && (a[r + 1] != NUL <==> r + 1 < n) && Intact(a, s, r + 1, n)
    ensures r + 1 < n ==> Intact(a, s, r + 2, n)
  {
    forall k | r <= k < n ensures s[k] != NUL {
      assert s[k] == s[r..n][k - r];
    }
  }

  /** skip_oneline_comment, from the first slash. */
  method SkipOnelineComment(a: array<byte>, start: nat, ghost s: bytes, ghost n: nat) returns (r: nat)
    requires start + 2 <= n && Intact(a, s, start, n)
    ensures r == start + 2 + LineSpan(s[start + 2..n]) && Intact(a, s, r, n)
  {
    hide LineSpan;
    r := start + 2;
    IntactAt(a, s, start, n);
    while a[r] != NUL
      invariant start + 2 <= r <= n && Intact(a, s, r, n)
      invariant LineSpan(s[start + 2..n]) == r - (start + 2) + LineSpan(s[r..n])
      decreases n - r
    {
      IntactAt(a, s, r, n);
      CommentSpanStep(s, r, n);
      if a[r] == NEWLINE {
        return r + 1;
      }
      r := r + 1;
    }
    IntactAt(a, s, r, n);
    CommentSpanStep(s, r, n);
  }

  /** skip_multiline_comment, from the slash. */
  method SkipMultilineComment(a: array<byte>, start: nat, ghost s: bytes, ghost n: nat) returns (r: nat)
    requires start + 2 <= n && Intact(a, s, start, n)
    ensures r == start + 2 + BlockSpan(s[start + 2..n]) && Intact(a, s, r, n)
  {
    hide BlockSpan;
    r := start + 2;
    IntactAt(a, s, start, n);
    while a[r] != NUL
      invariant start + 2 <= r <= n && Intact(a, s, r, n)
      invariant BlockSpan(s[start + 2..n]) == r - (start + 2) + BlockSpan(s[r..n])
      decreases n - r
    {
      IntactAt(a, s, r, n);
      CommentSpanStep(s, r, n);
      if a[r] == STAR && a[r + 1] == SLASH {
        return r + 2;
      }
      r := r + 1;
    }
    IntactAt(a, s, r, n);
    CommentSpanStep(s, r, n);
  }

  /** One byte moved down: the text in front of `w` grows by it, the rest of the string stays. */
  method Move(a: array<byte>, r: nat, w: nat, ghost s: bytes, ghost n: nat)
    requires w <= r < n && Intact(a, s, r, n)
    modifies a
    ensures a[..w + 1] == old(a[..w]) + [s[r]] && Intact(a, s, r + 1, n)
  {
    IntactAt(a, s, r, n);
    a[w] := a[r];
  }

  lemma Grow(text: bytes, s: bytes, from: nat, r: nat, to: nat)
    requires from <= r <= to <= |s|
    ensures text + s[from..r] + s[r..to] == text + s[from..to]
  {}

  lemma NoSpan()
    ensures StringSpan([]) == 0
  {}

  lemma SpanAfter(s: bytes, r: nat, n: nat, count: nat, done: bool)
    requires r < n <= |s| && done == (s[r] == QUOTE)
    requires count == if s[r] == BACKSLASH && r + 1 < n && s[r + 1] == QUOTE then 2 else 1
    ensures r + count <= n && StringSpan(s[r..n]) == count + if done then 0 else StringSpan(s[r + count..n])
  {
    hide StringSpan;
    StringSpanStep(s, r, n);
  }

  /** One turn of the loop of minify_string: a byte, or a backslash and the quote behind it. */
  method MoveStringByte(a: array<byte>, r: nat, w: nat, ghost s: bytes, ghost n: nat) returns (count: nat, done: bool)
    requires w <= r < n && Intact(a, s, r, n)
    modifies a
    ensures done == (s[r] == QUOTE)
    ensures count == if s[r] == BACKSLASH && r + 1 < n && s[r + 1] == QUOTE then 2 else 1
    ensures a[..w + count] == old(a[..w]) + s[r..r + count] && Intact(a, s, r + count, n)
  {
    hide Intact;
    IntactAt(a, s, r, n);
    var b := a[r];
    var next := a[r + 1];
    Move(a, r, w, s, n);
    if b == QUOTE {
      return 1, true;
    } else if b == BACKSLASH && next == QUOTE {
      Move(a, r + 1, w + 1, s, n);
      return 2, false;
    }
    return 1, false;
  }

  /** The same turn, seen from the start of the literal. */
  method MoveNext(a: array<byte>, r: nat, w: nat, ghost s: bytes, ghost n: nat, ghost from: nat, ghost text: bytes)
    returns (count: nat, done: bool)
    requires from <= r && w <= r < n && Intact(a, s, r, n) && a[..w] == text + s[from..r]
    modifies a
    ensures Intact(a, s, r + count, n) && r + count <= n && count > 0
    ensures a[..w + count] == text + s[from..r + count]
    ensures StringSpan(s[r..n]) == count + if done then 0 else StringSpan(s[r + count..n])
  {
    hide Intact, StringSpan;
    IntactAt(a, s, r, n);
    count, done := MoveStringByte(a, r, w, s, n);
    SpanAfter(s, r, n, count, done);
    Grow(text, s, from, r, r + count);
  }

  /** minify_string: moves the literal at `input` down to `output`. */
  method MinifyString(a: array<byte>, input: nat, output: nat, ghost s: bytes, ghost n: nat) returns (r: nat, w: nat)
    requires output <= input < n && Intact(a, s, input, n) && a[input] == QUOTE
    modifies a
    ensures r == input + 1 + StringSpan(s[input + 1..n]) && w == output + (r - input) && Intact(a, s, r, n)
    ensures a[..w] == old(a[..output]) + s[input..r]
  {
    hide StringSpan, Intact;
    IntactAt(a, s, input, n);
    ghost var text, span := a[..output], StringSpan(s[input + 1..n]);
    Move(a, input, output, s, n);
    assert text + [s[input]] == text + s[input..input + 1];
    r, w := input + 1, output + 1;
    IntactAt(a, s, r, n);
    while a[r] != NUL
      invariant input + 1 <= r <= n < |s| == a.Length && w == output + (r - input)
      invariant Intact(a, s, r, n) && (a[r] != NUL <==> r < n)
      invariant span == r - (input + 1) + StringSpan(s[r..n])
      invariant a[..w] == text + s[input..r]
      decreases n - r
    {
      var count, done := MoveNext(a, r, w, s, n, input, text);
      r, w := r + count, w + count;
      if done {
        return;
      }
      IntactAt(a, s, r, n);
    }
    assert s[n..n] == [] && StringSpan([]) == 0 by { NoSpan(); }
  }

  lemma MinifiedComment(t: bytes)
    requires StartsWith(t, SLASH, SLASH) || StartsWith(t, SLASH, STAR)
    ensures StartsWith(t, SLASH, SLASH) ==> Minified(t) == Minified(t[2 + LineSpan(t[2..])..])
    ensures StartsWith(t, SLASH, STAR) ==> Minified(t) == Minified(t[2 + BlockSpan(t[2..])..])
    ensures !IsMinifyBlank(t[0])
  {
    hide StringSpan, LineSpan, BlockSpan;
  }

  lemma MinifiedLiteral(t: bytes)
    requires t != [] && t[0] == QUOTE
    ensures Minified(t) == t[..1 + StringSpan(t[1..])] + Minified(t[1 + StringSpan(t[1..])..])
  {
    hide StringSpan, LineSpan, BlockSpan;
  }

  lemma MinifiedByte(t: bytes)
    requires t != [] && t[0] != QUOTE && !StartsWith(t, SLASH, SLASH) && !StartsWith(t, SLASH, STAR)
    ensures Minified(t) == (if IsMinifyBlank(t[0]) || t[0] == SLASH then [] else [t[0]]) + Minified(t[1..])
  {
    hide StringSpan, LineSpan, BlockSpan, StartsWith;
  }

  lemma MinifiedAt(t: bytes)
    requires t != []
    ensures Minified(t) == (
              if IsMinifyBlank(t[0]) then Minified(t[1..])
              else if StartsWith(t, SLASH, SLASH) then Minified(t[2 + LineSpan(t[2..])..])
              else if StartsWith(t, SLASH, STAR) then Minified(t[2 + BlockSpan(t[2..])..])
              else if t[0] == SLASH then Minified(t[1..])
              else if t[0] == QUOTE then t[..1 + StringSpan(t[1..])] + Minified(t[1 + StringSpan(t[1..])..])
              else [t[0]] + Minified(t[1..]))
  {
    hide Minified, StringSpan, LineSpan, BlockSpan, StartsWith;
    if StartsWith(t, SLASH, SLASH) || StartsWith(t, SLASH, STAR) {
      MinifiedComment(t);
    } else if t[0] == QUOTE {
      MinifiedLiteral(t);
    } else {
      MinifiedByte(t);
    }
  }

  lemma MinifiedStep(s: bytes, r: nat, n: nat)
    requires r < n < |s|
    ensures Minified(s[r..n]) == (
              if IsMinifyBlank(s[r]) then Minified(s[r + 1..n])
              else if s[r] == SLASH && r + 1 < n && s[r + 1] == SLASH then
                Minified(s[r + 2 + LineSpan(s[r + 2..n])..n])
              else if s[r] == SLASH && r + 1 < n && s[r + 1] == STAR then
                Minified(s[r + 2 + BlockSpan(s[r + 2..n])..n])
              else if s[r] == SLASH then Minified(s[r + 1..n])
              else if s[r] == QUOTE then
                var e := r + 1 + StringSpan(s[r + 1..n]);
                s[r..e] + Minified(s[e..n])
              else [s[r]] + Minified(s[r + 1..n]))
  {
    hide Minified, StringSpan, LineSpan, BlockSpan;
    var t := s[r..n];
    MinifiedAt(t);
    assert t[1..] == s[r + 1..n];
    if r + 1 < n {
      assert t[2..] == s[r + 2..n];
    }
    if s[r] == SLASH && r + 1 < n && s[r + 1] == SLASH {
      var k := 2 + LineSpan(s[r + 2..n]);
      assert t[k..] == s[r + k..n];
    } else if s[r] == SLASH && r + 1 < n && s[r + 1] == STAR {
      var k := 2 + BlockSpan(s[r + 2..n]);
      assert t[k..] == s[r + k..n];
    } else if s[r] == QUOTE {
      var k := 1 + StringSpan(s[r + 1..n]);
      assert t[k..] == s[r + k..n] && t[..k] == s[r..r + k];
    }
  }

  /** The switch of the loop: what stands at `json0` is dropped, or moved down to `into0`. */
  method MinifyNext(a: array<byte>, json0: nat, into0: nat, ghost s: bytes, ghost n: nat) returns (json: nat, into: nat)
    requires into0 <= json0 < n && Intact(a, s, json0, n)
    modifies a
    ensures json0 < json <= n && into <= json && Intact(a, s, json, n)
    ensures a[..into] + Minified(s[json..n]) == old(a[..into0]) + Minified(s[json0..n])
  {
    hide Minified, StringSpan, LineSpan, BlockSpan, Intact;
    json, into := json0, into0;
    IntactAt(a, s, json, n);
    MinifiedStep(s, json, n);
    if IsMinifyBlank(a[json]) {
      json := json + 1;
    } else if a[json] == SLASH {
      if a[json + 1] == SLASH {
        json := SkipOnelineComment(a, json, s, n);
      } else if a[json + 1] == STAR {
        json := SkipMultilineComment(a, json, s, n);
      } else {
        json := json + 1;
      }
    } else if a[json] == QUOTE {
      ghost var out := a[..into];
      json, into := MinifyString(a, json, into, s, n);
      Assoc(out, s[json0..json], Minified(s[json..n]));
    } else {
      ghost var out := a[..into];
      Move(a, json, into, s, n);
      json, into := json + 1, into + 1;
      Assoc(out, [s[json0]], Minified(s[json..n]));
    }
    IntactAt(a, s, json, n);
  }

  /** cJSON_Minify on the C string of length `n` at the start of `a`. */
  method MinifyInPlace(a: array<byte>, ghost n: nat) returns (into: nat)
    requires n < a.Length && a[n] == NUL && NulFree(a[..n])
    modifies a
    ensures into <= n && a[..into] == Minified(old(a[..n])) && a[into] == NUL
    ensures a[n + 1..] == old(a[n + 1..])
  {
    hide Minified, Intact;
    ghost var s := a[..];
    assert s[0..n] == a[..n] && a[..0] + Minified(s[0..n]) == Minified(s[0..n]);
    StartIntact(a, s, n);
    into := 0;
    var json := 0;
    IntactAt(a, s, json, n);
    while a[json] != NUL
      invariant into <= json <= n < a.Length && Intact(a, s, json, n) && (a[json] != NUL <==> json < n)
      invariant a[..into] + Minified(s[json..n]) == Minified(s[0..n])
      decreases n - json
    {
      json, into := MinifyNext(a, json, into, s, n);
      IntactAt(a, s, json, n);
    }
    MinifiedOfNothing();
    assert s[json..n] == [] && a[..into] + [] == a[..into];
    IntactTail(a, s, n);
    ghost var out := a[..into];
    a[into] := NUL;
    assert a[..into] == out;
  }

  lemma IntactTail(a: array<byte>, s: bytes, n: nat)
    requires Intact(a, s, n, n)
    ensures a[n + 1..] == s[n + 1..]
  {}

  lemma Assoc(a: bytes, b: bytes, c: bytes)
    ensures a + (b + c) == a + b + c
  {}

  lemma MinifiedOfNothing()
    ensures Minified([]) == []
  {}
}
