/**
  A document and its minified form parse to the same value, as long as the minifier does not drop a byte of
  a string because it believes to be outside. The proof walks through both texts in step.
 */
module MinifyParse {
  import opened Bytes
  import opened Decimals
  import opened JsonText
  import opened JsonParser
  import opened Utf16
  import opened Minify
  import opened ParserSteps
  import opened RoundTrip

  // ---- where strings end ----

  /**
    The parser's closing quote of the literal whose content starts at `i` is `e`; the text ends at
    `n`. The minifier takes a quote behind a backslash for an escaped one, even when that backslash
    is itself escaped; this does no harm when nothing follows.
   */
  predicate CloseIsPlain(c: bytes, i: nat, e: nat, n: nat)
    requires i <= e < n <= |c|
  {
    e == i || c[e - 1] != BACKSLASH || e + 1 == n
  }

  /** The minifier's literal ends at the parser's closing quote exactly when that quote is plain. */
  lemma {:induction false} SpanIsScan(c: bytes, i: nat, e: nat, n: nat)
    requires i <= e < n <= |c| && ScanEnd(c, i) == Some(e)
    ensures StringSpan(c[i..n]) == e + 1 - i <==> CloseIsPlain(c, i, e, n)
    ensures StringSpan(c[i..n]) >= e + 1 - i
    decreases e - i
  {
    StringSpanStep(c, i, n);
    if c[i] == BACKSLASH {
      StringSpanStep(c, i + 1, n);
      SpanIsScan(c, i + 2, e, n);
      if c[i + 1] == BACKSLASH && e == i + 2 {
        StringSpanStep(c, i + 3, n);
      }
    } else if c[i] != QUOTE {
      SpanIsScan(c, i + 1, e, n);
    }
  }

  /** Every string literal from `o` on closes with a plain quote. */
  predicate Tidy(c: bytes, o: nat)
    decreases |c| - o
  {
    if o + 1 >= |c| then true
    else if c[o] == QUOTE then
      match ScanEnd(c, o + 1)
      case None => true
      case Some(e) => (e + 1 < |c| ==> CloseIsPlain(c, o + 1, e, |c| - 1)) && Tidy(c, e + 1)
    else Tidy(c, o + 1)
  }

  // ---- where the minifier believes to be ----

  /** Outside of strings, in one, or in one and behind a backslash. */
  datatype Mode = Outside | Inside | BehindBackslash

  function Next(mode: Mode, b: byte): Mode {
    match mode
    case Outside => if b == QUOTE then Inside else Outside
    case Inside => if b == QUOTE then Outside else if b == BACKSLASH then BehindBackslash else Inside
    case BehindBackslash => if b == BACKSLASH then BehindBackslash else Inside
  }

  /** Where the minifier believes to be at `o`, in a text without comments. */
  function ModeAt(c: bytes, o: nat): Mode
    requires o <= |c|
  {
    if o == 0 then Outside else Next(ModeAt(c, o - 1), c[o - 1])
  }

  /** The minifier keeps the byte. */
  predicate KeptAt(c: bytes, k: nat)
    requires k < |c|
  {
    ModeAt(c, k) == Outside ==> !IsMinifyBlank(c[k]) && c[k] != SLASH
  }

  /** The minifier keeps every byte of the string literals that the parser sees from `o` on. */
  predicate Unharmed(c: bytes, o: nat)
    decreases |c| - o
  {
    if o + 1 >= |c| then true
    else if c[o] == QUOTE then
      match ScanEnd(c, o + 1)
      case None => true
      case Some(e) => (forall k :: o <= k <= e ==> KeptAt(c, k)) && Unharmed(c, e + 1)
    else Unharmed(c, o + 1)
  }

  /** What the minifier makes of the rest of a literal and what follows it. */
  function InsideRest(c: bytes, o: nat, n: nat): bytes
    requires o <= n <= |c|
  {
    SpanFits(c, o, n);
    var k := StringSpan(c[o..n]);
    c[o..o + k] + Minified(c[o + k..n])
  }

  function Rest(c: bytes, o: nat, n: nat, mode: Mode): bytes
    requires o <= n <= |c|
  {
    match mode
    case Outside => Minified(c[o..n])
    case Inside => InsideRest(c, o, n)
    case BehindBackslash => if o < n && c[o] == QUOTE then [QUOTE] + InsideRest(c, o + 1, n) else InsideRest(c, o, n)
  }

  lemma SpanFits(c: bytes, i: nat, n: nat)
    requires i <= n <= |c|
    ensures StringSpan(c[i..n]) <= n - i
  {}

  lemma Grouped(b: byte, y: bytes, z: bytes)
    ensures ([b] + y) + z == [b] + (y + z)
  {}

  /** The literal goes on behind the byte. */
  lemma InsideOn(c: bytes, o: nat, n: nat)
    requires o < n <= |c| && StringSpan(c[o..n]) == 1 + StringSpan(c[o + 1..n])
    ensures InsideRest(c, o, n) == [c[o]] + InsideRest(c, o + 1, n)
  {
    hide StringSpan, Minified;
    SpanFits(c, o + 1, n);
    var e := o + 1 + StringSpan(c[o + 1..n]);
    assert c[o..e] == [c[o]] + c[o + 1..e];
    Grouped(c[o], c[o + 1..e], Minified(c[e..n]));
  }

  /** A backslash and the quote behind it. */
  lemma InsideTwo(c: bytes, o: nat, n: nat)
    requires o + 1 < n <= |c| && StringSpan(c[o..n]) == 2 + StringSpan(c[o + 2..n])
    ensures InsideRest(c, o, n) == [c[o]] + ([c[o + 1]] + InsideRest(c, o + 2, n))
  {
    hide StringSpan, Minified;
    SpanFits(c, o + 2, n);
    var e := o + 2 + StringSpan(c[o + 2..n]);
    assert c[o..e] == [c[o]] + ([c[o + 1]] + c[o + 2..e]);
    Grouped(c[o], [c[o + 1]] + c[o + 2..e], Minified(c[e..n]));
    Grouped(c[o + 1], c[o + 2..e], Minified(c[e..n]));
  }

  /** Inside a literal every byte stays. */
  lemma InsideStep(c: bytes, o: nat, n: nat)
    requires o < n <= |c|
    ensures InsideRest(c, o, n) == [c[o]] + Rest(c, o + 1, n, Next(Inside, c[o]))
  {
    StringSpanStep(c, o, n);
    if c[o] == QUOTE {
      hide StringSpan, Minified;
      assert c[o..o + 1] == [c[o]];
    } else {
      hide StringSpan, Minified, InsideRest;
      if c[o] == BACKSLASH && o + 1 < n && c[o + 1] == QUOTE {
        InsideTwo(c, o, n);
      } else {
        InsideOn(c, o, n);
      }
    }
  }

  /** A byte goes, or stays in front of the rest. */
  lemma RestStep(c: bytes, o: nat, n: nat, mode: Mode)
    requires o < n < |c|
    ensures if mode == Outside && IsMinifyBlank(c[o]) then Rest(c, o, n, mode) == Rest(c, o + 1, n, Outside)
            else (mode == Outside && c[o] == SLASH) || Rest(c, o, n, mode) == [c[o]] + Rest(c, o + 1, n, Next(mode, c[o]))
  {
    hide StringSpan, LineSpan, BlockSpan, Minified, InsideRest;
    match mode
    case Outside =>
      MinifiedStep(c, o, n);
      if c[o] == QUOTE {
        QuoteRest(c, o, n);
      }
    case Inside => InsideStep(c, o, n);
    case BehindBackslash => InsideStep(c, o, n);
  }

  lemma QuoteRest(c: bytes, o: nat, n: nat)
    requires o < n < |c| && c[o] == QUOTE
    ensures Minified(c[o..n]) == [QUOTE] + InsideRest(c, o + 1, n)
  {
    hide StringSpan, LineSpan, BlockSpan, Minified;
    MinifiedStep(c, o, n);
    SpanFits(c, o + 1, n);
    var e := o + 1 + StringSpan(c[o + 1..n]);
    assert c[o..e] == [QUOTE] + c[o + 1..e];
  }

  lemma RestNothing(c: bytes, n: nat, mode: Mode)
    requires n <= |c|
    ensures Rest(c, n, n, mode) == []
  {
    assert c[n..n] == [];
  }

  // ---- walking in step ----

  /** Position `o` of the document `c` corresponds to position `p` of the minified text `m`. */
  ghost predicate Track(c: bytes, o: nat, m: bytes, p: nat) {
    && o < |c| && c[|c| - 1] == NUL && NulFree(c[..|c| - 1]) && p < |m|
    && m[p..] == Rest(c, o, |c| - 1, ModeAt(c, o)) + [NUL]
  }

  /** And from there on nothing of a string is lost. */
  ghost predicate InStep(c: bytes, o: nat, m: bytes, p: nat) {
    Track(c, o, m, p) && Unharmed(c, o)
  }

  predicate IsPlain(b: byte) {
    b > 32 && b != SLASH && b != QUOTE
  }

  lemma NulIsLast(c: bytes, o: nat, m: bytes, p: nat)
    requires Track(c, o, m, p)
    ensures c[o] == NUL <==> o == |c| - 1
    ensures o == |c| - 1 ==> p == |m| - 1 && m[p] == NUL
  {
    hide Rest, ModeAt;
    if o < |c| - 1 {
      assert c[o] == c[..|c| - 1][o];
    } else {
      RestNothing(c, o, ModeAt(c, o));
      assert m[p..] == [NUL];
      assert m[p] == m[p..][0];
    }
  }

  /** A byte that is kept. */
  lemma KeptStep(c: bytes, o: nat, m: bytes, p: nat)
    requires Track(c, o, m, p) && o < |c| - 1 && KeptAt(c, o)
    ensures m[p] == c[o] && Track(c, o + 1, m, p + 1)
  {
    hide Rest;
    RestStep(c, o, |c| - 1, ModeAt(c, o));
    assert m[p..][0] == c[o];
    assert m[p + 1..] == m[p..][1..];
  }

  /** A run of bytes that are kept one by one. */
  lemma {:induction false} KeptRun(c: bytes, o: nat, m: bytes, p: nat, q: nat)
    requires Track(c, o, m, p) && o <= q < |c| && forall k :: o <= k < q ==> KeptAt(c, k)
    ensures Track(c, q, m, p + (q - o)) && p + (q - o) < |m| && m[p..p + (q - o)] == c[o..q]
    decreases q - o
  {
    hide Rest, ModeAt, KeptAt;
    if o == q {
    } else {
      KeptStep(c, o, m, p);
      KeptRun(c, o + 1, m, p + 1, q);
      assert c[o..q] == [c[o]] + c[o + 1..q];
      assert m[p..p + (q - o)] == [m[p]] + m[p + 1..p + (q - o)];
    }
  }

  lemma PlainStep(c: bytes, o: nat, m: bytes, p: nat)
    requires InStep(c, o, m, p) && IsPlain(c[o])
    ensures m[p] == c[o] && InStep(c, o + 1, m, p + 1)
  {
    hide Track, ModeAt;
    TrackBounds(c, o, m, p);
    NulIsLast(c, o, m, p);
    KeptStep(c, o, m, p);
  }

  lemma TrackBounds(c: bytes, o: nat, m: bytes, p: nat)
    requires Track(c, o, m, p)
    ensures o < |c| && p < |m|
  {}

  lemma {:induction false} PlainRun(c: bytes, o: nat, m: bytes, p: nat, q: nat)
    requires InStep(c, o, m, p) && o <= q <= |c| && forall k :: o <= k < q ==> IsPlain(c[k])
    ensures InStep(c, q, m, p + (q - o)) && m[p..p + (q - o)] == c[o..q]
    decreases q - o
  {
    hide InStep;
    InStepBounds(c, o, m, p);
    if o == q {
    } else {
      PlainStep(c, o, m, p);
      PlainRun(c, o + 1, m, p + 1, q);
      InStepBounds(c, q, m, p + (q - o));
      assert c[o..q] == [c[o]] + c[o + 1..q];
      assert m[p..p + (q - o)] == [m[p]] + m[p + 1..p + (q - o)];
    }
  }

  /** A blank is dropped or kept; in both cases the texts go on in step. */
  lemma BlankStep(c: bytes, o: nat, m: bytes, p: nat)
    requires InStep(c, o, m, p) && o < |c| - 1 && c[o] <= 32
    ensures InStep(c, o + 1, m, p) || (m[p] <= 32 && p + 1 < |m| && InStep(c, o + 1, m, p + 1))
  {
    hide Rest;
    if KeptAt(c, o) {
      KeptStep(c, o, m, p);
    } else {
      RestStep(c, o, |c| - 1, ModeAt(c, o));
    }
  }

  lemma QuoteStep(c: bytes, o: nat, m: bytes, p: nat)
    requires InStep(c, o, m, p) && c[o] == QUOTE
    ensures m[p] == QUOTE && p + 1 < |m|
  {
    hide Track, ModeAt;
    TrackBounds(c, o, m, p);
    NulIsLast(c, o, m, p);
    KeptStep(c, o, m, p);
    TrackBounds(c, o + 1, m, p + 1);
  }

  /** Skipping blanks in both texts leads to the same byte, unless the document goes on with a slash. */
  lemma {:induction false} BlanksInStep(c: bytes, o: nat, m: bytes, p: nat)
    requires InStep(c, o, m, p) && c[SkipBlanks(c, o)] != SLASH
    ensures var f, g := SkipBlanks(c, o), SkipBlanks(m, p);
            InStep(c, f, m, g) && m[g] == c[f]
    decreases |c| - o
  {
    hide Track, Unharmed, InStep;
    InStepBounds(c, o, m, p);
    NulHere(c, o, m, p);
    if o == |c| - 1 {
      assert BlankEnd(c, o + 1) == |c| && BlankEnd(m, p + 1) == |m|;
    } else if c[o] > 32 {
      if c[o] == QUOTE {
        QuoteStep(c, o, m, p);
      } else {
        PlainStep(c, o, m, p);
      }
    } else {
      BlankStep(c, o, m, p);
      if InStep(c, o + 1, m, p) {
        BlanksInStep(c, o + 1, m, p);
      } else {
        BlanksInStep(c, o + 1, m, p + 1);
      }
    }
  }

  lemma NulHere(c: bytes, o: nat, m: bytes, p: nat)
    requires InStep(c, o, m, p)
    ensures o < |c| && p < |m| && (c[o] == NUL <==> o == |c| - 1) && (o == |c| - 1 ==> p == |m| - 1 && m[p] == NUL)
  {
    NulIsLast(c, o, m, p);
  }

  lemma InStepBounds(c: bytes, o: nat, m: bytes, p: nat)
    requires InStep(c, o, m, p)
    ensures o < |c| && p < |m|
  {}

  // ---- strings ----

  lemma LiteralInStep(c: bytes, o: nat, m: bytes, p: nat, e: nat)
    requires InStep(c, o, m, p) && c[o] == QUOTE && ScanEnd(c, o + 1) == Some(e)
    ensures var n := e + 1 - o;
            p + n < |m| && Moved(c, o, m, p, n) && InStep(c, e + 1, m, p + n)
  {
    hide Track, ModeAt, KeptAt;
    var n := e + 1 - o;
    TrackBounds(c, o, m, p);
    NulHere(c, o, m, p);
    LastIsNul(c, o, m, p);
    assert Unharmed(c, e + 1);
    KeptRun(c, o, m, p, e + 1);
  }

  lemma LastIsNul(c: bytes, o: nat, m: bytes, p: nat)
    requires Track(c, o, m, p)
    ensures c[|c| - 1] == NUL
  {}

  /** The `n` bytes of `c` at `i` are those of `m` at `j`. */
  predicate Moved(c: bytes, i: nat, m: bytes, j: nat, n: nat) {
    i + n <= |c| && j + n <= |m| && c[i..i + n] == m[j..j + n]
  }

  lemma MovedAt(c: bytes, i: nat, m: bytes, j: nat, n: nat, k: nat)
    requires Moved(c, i, m, j, n) && k <= n
    ensures i + n <= |c| && j + n <= |m|
    ensures k < n ==> c[i + k] == m[j + k]
    ensures Moved(c, i + k, m, j + k, n - k)
  {
    assert k < n ==> c[i + k] == c[i..i + n][k] == m[j..j + n][k] == m[j + k];
    assert c[i + k..i + n] == c[i..i + n][k..] == m[j..j + n][k..] == m[j + k..j + n];
  }

  /** The same bytes up to the closing quote: the same scan, and the same escapes. */
  lemma {:induction false} ScanMoved(c: bytes, i: nat, m: bytes, j: nat, e: nat)
    requires ScanEnd(c, i) == Some(e) && Moved(c, i, m, j, e + 1 - i)
    ensures ScanEnd(m, j) == Some(j + (e - i))
    decreases e - i
  {
    hide Moved;
    var n := e + 1 - i;
    MovedAt(c, i, m, j, n, 0);
    if c[i] == BACKSLASH {
      MovedAt(c, i, m, j, n, 2);
      ScanMoved(c, i + 2, m, j + 2, e);
    } else if c[i] != QUOTE {
      MovedAt(c, i, m, j, n, 1);
      ScanMoved(c, i + 1, m, j + 1, e);
    }
  }

  lemma Hex4Moved(c: bytes, i: nat, m: bytes, j: nat)
    requires Moved(c, i, m, j, 4)
    ensures Hex4(c, i) == Hex4(m, j)
  {
    MovedAt(c, i, m, j, 4, 0);
    MovedAt(c, i, m, j, 4, 1);
    MovedAt(c, i, m, j, 4, 2);
    MovedAt(c, i, m, j, 4, 3);
  }

  lemma LiteralMoved(c: bytes, i: nat, m: bytes, j: nat, n: nat)
    requires Moved(c, i, m, j, n)
    ensures ReadLiteral(c, i, i + n) == ReadLiteral(m, j, j + n)
  {
    hide Moved, Hex4;
    MovedAt(c, i, m, j, n, 0);
    if n >= 6 {
      MovedAt(c, i, m, j, n, 2);
      MovedPrefix(c, i + 2, m, j + 2, n - 2, 4);
      Hex4Moved(c, i + 2, m, j + 2);
      if n >= 12 {
        MovedAt(c, i, m, j, n, 6);
        MovedAt(c, i, m, j, n, 7);
        MovedAt(c, i, m, j, n, 8);
        MovedPrefix(c, i + 8, m, j + 8, n - 8, 4);
        Hex4Moved(c, i + 8, m, j + 8);
      }
    }
  }

  lemma MovedPrefix(c: bytes, i: nat, m: bytes, j: nat, n: nat, k: nat)
    requires Moved(c, i, m, j, n) && k <= n
    ensures Moved(c, i, m, j, k)
  {
    assert c[i..i + k] == c[i..i + n][..k] == m[j..j + n][..k] == m[j..j + k];
  }

  lemma PieceMoved(c: bytes, i: nat, m: bytes, j: nat, n: nat)
    requires n > 0 && Moved(c, i, m, j, n + 1)
    ensures ReadPiece(m, j, j + n) == ReadPiece(c, i, i + n)
  {
    hide Moved, ReadLiteral;
    MovedAt(c, i, m, j, n + 1, 0);
    MovedAt(c, i, m, j, n + 1, 1);
    MovedPrefix(c, i, m, j, n + 1, n);
    LiteralMoved(c, i, m, j, n);
  }

  lemma {:induction false} UnescapeMoved(c: bytes, i: nat, m: bytes, j: nat, n: nat)
    requires Moved(c, i, m, j, n + 1) && Unescape(c, i, i + n).Unescaped?
    ensures Unescape(m, j, j + n) == Unescape(c, i, i + n)
    decreases n
  {
    hide Moved, ReadPiece;
    MovedAt(c, i, m, j, n + 1, 0);
    if n == 0 {
    } else {
      PieceMoved(c, i, m, j, n);
      var k := ReadPiece(c, i, i + n).consumed;
      if k <= n {
        MovedAt(c, i, m, j, n + 1, k);
        UnescapeMoved(c, i + k, m, j + k, n - k);
      }
    }
  }

  lemma StringInStep(c: bytes, o: nat, m: bytes, p: nat)
    requires InStep(c, o, m, p) && ParseString(c, o).Ok?
    ensures var r, s := ParseString(c, o), ParseString(m, p);
            s.Ok? && s.value == r.value && r.offset < |c| && InStep(c, r.offset, m, s.offset)
  {
    hide Track, ReadPiece, Unescape, Moved, Unharmed;
    InStepBounds(c, o, m, p);
    var e := ScanEnd(c, o + 1).value;
    var n := e + 1 - o;
    LiteralInStep(c, o, m, p, e);
    InStepBounds(c, e + 1, m, p + n);
    MovedAt(c, o, m, p, n, 0);
    MovedAt(c, o, m, p, n, 1);
    ScanMoved(c, o + 1, m, p + 1, e);
    UnescapeMoved(c, o + 1, m, p + 1, e - (o + 1));
  }

  // ---- values ----

  /** Behind `o` and blanks comes a separator, a closing byte, or the end. */
  predicate Follows(c: bytes, o: nat)
    requires o < |c|
  {
    var b := c[SkipBlanks(c, o)];
    b == COMMA || b == RBRACKET || b == RBRACE || b == NUL
  }

  lemma NumberInStep(c: bytes, o: nat, m: bytes, p: nat)
    requires InStep(c, o, m, p) && ParseNumber(c, o).Ok?
    requires ParseNumber(c, o).offset < |c| && Follows(c, ParseNumber(c, o).offset)
    ensures var r, s := ParseNumber(c, o), ParseNumber(m, p);
            s.Ok? && s.value == r.value && InStep(c, r.offset, m, s.offset)
  {
    hide Strtod, InStep;
    InStepBounds(c, o, m, p);
    var q := ParseNumber(c, o).offset;
    var n := q - o;
    // All of the run was taken: a number byte left over could not be followed by what follows.
    assert q == NumberEnd(c, o) by {
      if q < NumberEnd(c, o) {
        assert IsNumberByte(c[q]);
        BlankEndAt(c, q, q);
      }
    }
    PlainRun(c, o, m, p, q);
    InStepBounds(c, q, m, p + n);
    BlanksInStep(c, q, m, p + n);
    assert NumberStops(m, p + n) by {
      if m[p + n] > 32 {
        BlankEndAt(m, p + n, p + n);
      }
    }
    forall k | p <= k < p + n ensures IsNumberByte(m[k]) {
      assert m[k] == m[p..p + n][k - p] == c[o..q][k - p] == c[o + (k - p)];
    }
    NumberEndAt(m, p, p + n);
  }

  lemma {:induction false} DigitsEndGrows(r: bytes, x: bytes, i: nat)
    requires i <= |r|
    ensures var j := DigitsEnd(r, i);
            if j < |r| then DigitsEnd(r + x, i) == j else DigitsEnd(r + x, i) >= j
    decreases |r| - i
  {
    if i == |r| {
    } else if IsDigit(r[i]) {
      DigitsEndGrows(r, x, i + 1);
    }
  }

  /** Behind the sign come digits, or a point and digits. */
  predicate HasDigits(s: bytes) {
    var i := SignEnd(s, 0);
    var j := DigitsEnd(s, i);
    i < j || (j < |s| && s[j] == DOT && j + 1 < DigitsEnd(s, j + 1))
  }

  lemma StrtodTakes(s: bytes)
    ensures Strtod(s).consumed > 0 <==> HasDigits(s)
  {
    hide DigitsEnd, Exponent, DigitsValue, Pow10;
  }

  /** A text that starts with a number still does when more bytes follow. */
  lemma StrtodGrows(r: bytes, x: bytes)
    requires Strtod(r).consumed > 0
    ensures Strtod(r + x).consumed > 0
  {
    hide DigitsEnd, Strtod;
    StrtodTakes(r);
    StrtodTakes(r + x);
    var i := SignEnd(r, 0);
    var j := DigitsEnd(r, i);
    assert SignEnd(r + x, 0) == i;
    DigitsEndGrows(r, x, i);
    if i == j {
      DigitsEndGrows(r, x, j + 1);
    }
  }

  lemma {:induction false} StaysOutside(c: bytes, o: nat, e: nat)
    requires o <= e <= |c| && ModeAt(c, o) == Outside && forall k :: o <= k < e ==> c[k] != QUOTE
    ensures ModeAt(c, e) == Outside
    decreases e
  {
    if o == e {
    } else {
      StaysOutside(c, o, e - 1);
    }
  }

  /** A number of the document, and what becomes of it when the bytes behind it are minified. */
  lemma NumberJoined(c: bytes, o: nat, m: bytes, p: nat)
    requires InStep(c, o, m, p) && ParseNumber(c, o).Ok? && ModeAt(c, o) == Outside
    ensures var e := NumberEnd(c, o);
            && e < |c|
            && var t := Minified(c[e..|c| - 1]);
               && ParseNumber(m, p).Ok?
               && ParseNumber(m, p).value == Number(Strtod(c[o..e] + t[..NumberEnd(t, 0)]).value)
  {
    hide Strtod, Minified, Unharmed, ModeAt;
    var e := NumberEnd(c, o);
    assert e < |c|;
    PlainRun(c, o, m, p, e);
    StaysOutside(c, o, e);
    var h, t := p + (e - o), Minified(c[e..|c| - 1]);
    var n := NumberEnd(t, 0);
    assert m[h..] == t + [NUL];
    forall k | h <= k < |m| ensures m[k] == (t + [NUL])[k - h] {
      assert m[k] == m[h..][k - h];
    }
    forall k | p <= k < h ensures IsNumberByte(m[k]) {
      assert m[k] == m[p..h][k - p] == c[o..e][k - p] == c[o + (k - p)];
    }
    NumberEndAt(m, p, h + n);
    assert m[p..h + n] == c[o..e] + t[..n] by {
      assert m[p..h + n] == m[p..h] + m[h..h + n];
      assert m[h..h + n] == t[..n];
    }
    StrtodGrows(c[o..e], t[..n]);
  }

  lemma WordInStep(c: bytes, o: nat, m: bytes, p: nat, t: bytes)
    requires InStep(c, o, m, p) && At(c, o, t) && forall k :: 0 <= k < |t| ==> IsPlain(t[k])
    ensures At(m, p, t) && InStep(c, o + |t|, m, p + |t|)
  {
    hide InStep;
    InStepBounds(c, o, m, p);
    forall k | o <= k < o + |t| ensures IsPlain(c[k]) {
      AtIndex(c, o, t, k - o);
    }
    PlainRun(c, o, m, p, o + |t|);
    InStepBounds(c, o + |t|, m, p + |t|);
  }

  /** A parse of the document corresponds to a parse of the minified text. */
  ghost predicate SameParse<T>(c: bytes, r: Parsed<T>, m: bytes, s: Parsed<T>) {
    r.Ok? && s.Ok? && s.value == r.value && InStep(c, r.offset, m, s.offset)
  }

  predicate StartsNumber(b: byte) {
    b == MINUS || IsDigit(b)
  }

  /** Only what follows a number matters: it must not go on with what survives behind it. */
  lemma {:induction false} ValueInStep(c: bytes, o: nat, m: bytes, p: nat, depth: nat)
    requires InStep(c, o, m, p) && ParseValue(c, o, depth).Ok?
    requires StartsNumber(c[o]) ==> ParseValue(c, o, depth).offset < |c| && Follows(c, ParseValue(c, o, depth).offset)
    ensures SameParse(c, ParseValue(c, o, depth), m, ParseValue(m, p, depth))
    decreases |c| - o, 3
  {
    hide At, InStep, ParseNumber, ParseString, ParseArray, ParseObject;
    InStepBounds(c, o, m, p);
    ValueStep(c, o, depth);
    ValueStep(m, p, depth);
    if At(c, o, TEXT_NULL) {
      WordInStep(c, o, m, p, TEXT_NULL);
    } else if At(c, o, TEXT_FALSE) {
      WordInStep(c, o, m, p, TEXT_FALSE);
    } else if At(c, o, TEXT_TRUE) {
      WordInStep(c, o, m, p, TEXT_TRUE);
    } else if c[o] == QUOTE {
      QuoteStep(c, o, m, p);
      StringInStep(c, o, m, p);
    } else {
      PlainStep(c, o, m, p);
      if c[o] == LBRACKET {
        ArrayInStep(c, o, m, p, depth);
      } else if c[o] == LBRACE {
        ObjectInStep(c, o, m, p, depth);
      } else {
        NumberInStep(c, o, m, p);
      }
    }
  }

  lemma {:induction false} ArrayInStep(c: bytes, o: nat, m: bytes, p: nat, depth: nat)
    requires InStep(c, o, m, p) && c[o] == LBRACKET && ParseArray(c, o, depth).Ok?
    ensures SameParse(c, ParseArray(c, o, depth), m, ParseArray(m, p, depth))
    decreases |c| - o, 2
  {
    hide InStep, ParseElems, BlankEnd, SkipBlanks;
    InStepBounds(c, o, m, p);
    PlainStep(c, o, m, p);
    InStepBounds(c, o + 1, m, p + 1);
    var f, g := SkipBlanks(c, o + 1), SkipBlanks(m, p + 1);
    ElemsStart(c, f, depth + 1);
    BlanksInStep(c, o + 1, m, p + 1);
    InStepBounds(c, f, m, g);
    ArrayStep(c, o, f, depth);
    ArrayStep(m, p, g, depth);
    if c[f] == RBRACKET {
      PlainStep(c, f, m, g);
    } else {
      ElemsInStep(c, f, m, g, depth + 1);
    }
  }

  /** A value does not start with a slash, nor with a blank. */
  lemma ElemsStart(c: bytes, f: nat, depth: nat)
    requires f < |c|
    ensures ParseElems(c, f, depth).Ok? ==> c[SkipBlanks(c, f)] != SLASH && c[f] != SLASH
  {
    hide ParseNumber, ParseString, ParseArray, ParseObject;
    if ParseElems(c, f, depth).Ok? {
      ValueStart(c, SkipBlanks(c, f), depth);
      if c[f] == SLASH {
        BlankEndAt(c, f, f);
      }
    }
  }

  lemma ValueStart(c: bytes, o: nat, depth: nat)
    requires o < |c| && ParseValue(c, o, depth).Ok?
    ensures IsPlain(c[o]) || c[o] == QUOTE
    ensures c[o] < 0x80
  {
    hide At, ParseNumber, ParseString, ParseArray, ParseObject;
    ValueStep(c, o, depth);
    if At(c, o, TEXT_NULL) { AtIndex(c, o, TEXT_NULL, 0); }
    if At(c, o, TEXT_TRUE) { AtIndex(c, o, TEXT_TRUE, 0); }
    if At(c, o, TEXT_FALSE) { AtIndex(c, o, TEXT_FALSE, 0); }
  }

  lemma {:induction false} ElemsInStep(c: bytes, o: nat, m: bytes, p: nat, depth: nat)
    requires InStep(c, o, m, p) && ParseElems(c, o, depth).Ok?
    ensures SameParse(c, ParseElems(c, o, depth), m, ParseElems(m, p, depth))
    decreases |c| - o, 4
  {
    hide InStep, ParseValue, BlankEnd, SkipBlanks;
    InStepBounds(c, o, m, p);
    var f, g := SkipBlanks(c, o), SkipBlanks(m, p);
    ValueStart(c, f, depth);
    BlanksInStep(c, o, m, p);
    InStepBounds(c, f, m, g);
    var q := ParseValue(c, f, depth).offset;
    assert Follows(c, q);
    ValueInStep(c, f, m, g, depth);
    var h := ParseValue(m, g, depth).offset;
    InStepBounds(c, q, m, h);
    BlanksInStep(c, q, m, h);
    var a, b := SkipBlanks(c, q), SkipBlanks(m, h);
    InStepBounds(c, a, m, b);
    PlainStep(c, a, m, b);
    InStepBounds(c, a + 1, m, b + 1);
    if c[a] == COMMA {
      ElemsInStep(c, a + 1, m, b + 1, depth);
    }
  }

  lemma {:induction false} ObjectInStep(c: bytes, o: nat, m: bytes, p: nat, depth: nat)
    requires InStep(c, o, m, p) && c[o] == LBRACE && ParseObject(c, o, depth).Ok?
    ensures SameParse(c, ParseObject(c, o, depth), m, ParseObject(m, p, depth))
    decreases |c| - o, 2
  {
    hide InStep, ParseMembers, BlankEnd, SkipBlanks;
    InStepBounds(c, o, m, p);
    PlainStep(c, o, m, p);
    InStepBounds(c, o + 1, m, p + 1);
    var f, g := SkipBlanks(c, o + 1), SkipBlanks(m, p + 1);
    MembersStart(c, f, depth + 1);
    BlanksInStep(c, o + 1, m, p + 1);
    InStepBounds(c, f, m, g);
    ObjectStep(c, o, f, depth);
    ObjectStep(m, p, g, depth);
    if c[f] == RBRACE {
      PlainStep(c, f, m, g);
    } else {
      MembersInStep(c, f, m, g, depth + 1);
    }
  }

  lemma MembersStart(c: bytes, f: nat, depth: nat)
    requires 0 < f < |c|
    ensures ParseMembers(c, f, depth).Ok? ==> c[SkipBlanks(c, f)] == QUOTE && c[f] != SLASH
  {
    hide ParseValue, ScanEnd, Unescape;
    if ParseMembers(c, f, depth).Ok? {
      assert ParseMember(c, f, depth).Ok?;
      assert ParseString(c, SkipBlanks(c, f)).Ok?;
      if c[f] == SLASH {
        BlankEndAt(c, f, f);
      }
    }
  }

  lemma {:induction false} MembersInStep(c: bytes, o: nat, m: bytes, p: nat, depth: nat)
    requires o > 0 && p > 0 && InStep(c, o, m, p) && ParseMembers(c, o, depth).Ok?
    ensures SameParse(c, ParseMembers(c, o, depth), m, ParseMembers(m, p, depth))
    decreases |c| - o, 5
  {
    hide InStep, ParseMember, BlankEnd, SkipBlanks;
    InStepBounds(c, o, m, p);
    var q := ParseMember(c, o, depth).offset;
    assert q < |c| && Follows(c, q);
    MemberInStep(c, o, m, p, depth);
    var h := ParseMember(m, p, depth).offset;
    InStepBounds(c, q, m, h);
    BlanksInStep(c, q, m, h);
    var a, b := SkipBlanks(c, q), SkipBlanks(m, h);
    InStepBounds(c, a, m, b);
    PlainStep(c, a, m, b);
    InStepBounds(c, a + 1, m, b + 1);
    if c[a] == COMMA {
      MembersInStep(c, a + 1, m, b + 1, depth);
    }
  }

  lemma {:induction false} MemberInStep(c: bytes, o: nat, m: bytes, p: nat, depth: nat)
    requires InStep(c, o, m, p) && ParseMember(c, o, depth).Ok?
    requires ParseMember(c, o, depth).offset < |c| && Follows(c, ParseMember(c, o, depth).offset)
    ensures SameParse(c, ParseMember(c, o, depth), m, ParseMember(m, p, depth))
    decreases |c| - o, 4
  {
    hide InStep, ParseValue, BlankEnd, SkipBlanks, ScanEnd, Unescape;
    InStepBounds(c, o, m, p);
    var f, g := SkipBlanks(c, o), SkipBlanks(m, p);
    assert c[f] == QUOTE;
    BlanksInStep(c, o, m, p);
    InStepBounds(c, f, m, g);
    StringInStep(c, f, m, g);
    var q, h := ParseString(c, f).offset, ParseString(m, g).offset;
    InStepBounds(c, q, m, h);
    BlanksInStep(c, q, m, h);
    var a, b := SkipBlanks(c, q), SkipBlanks(m, h);
    InStepBounds(c, a, m, b);
    PlainStep(c, a, m, b);
    InStepBounds(c, a + 1, m, b + 1);
    var v, w := SkipBlanks(c, a + 1), SkipBlanks(m, b + 1);
    ValueStart(c, v, depth);
    BlanksInStep(c, a + 1, m, b + 1);
    ValueInStep(c, v, m, w, depth);
  }

  // ---- documents ----

  /** Where the value of a document starts, behind the byte order mark and blanks. */
  function ValueAt(d: bytes): (f: nat)
    ensures f <= |d|
  {
    var c := d + [NUL];
    SkipBlanks(c, SkipBom(c))
  }

  /** Where the number bytes end that start there. */
  function RunEnd(d: bytes): (e: nat)
    ensures ValueAt(d) <= e <= |d|
  {
    var c := d + [NUL];
    var e := NumberEnd(c, ValueAt(d));
    assert e == |c| ==> IsNumberByte(c[|d|]);
    e
  }

  /** The number bytes that the value starts with. */
  function NumberRun(d: bytes): bytes {
    d[ValueAt(d)..RunEnd(d)]
  }

  /** The number bytes that stand right behind them in the minified text. */
  function Joining(d: bytes): bytes {
    var t := Minified(d[RunEnd(d)..]);
    t[..NumberEnd(t, 0)]
  }

  /** Both texts have their value at corresponding places. */
  lemma ValuesStart(d: bytes, c: bytes, m: bytes) returns (f: nat, g: nat)
    requires NulFree(d) && Unharmed(d + [NUL], 0) && c == d + [NUL] && m == Minified(d) + [NUL]
    requires ParseValue(c, ValueAt(d), 0).Ok?
    ensures f == ValueAt(d) == SkipBlanks(c, SkipBom(c)) && g == SkipBlanks(m, SkipBom(m)) && InStep(c, f, m, g)
  {
    hide InStep, ParseValue, BlankEnd, SkipBlanks, Minified, Unharmed;
    StartInStep(d);
    var o := SkipBom(c);
    f := SkipBlanks(c, o);
    ValueStart(c, f, 0);
    BomInStep(c, m, f);
    g := SkipBlanks(m, o);
    BlanksInStep(c, o, m, o);
  }

  /** A document that the parser accepts whole keeps its value. */
  lemma WholeKeepsValue(d: bytes)
    requires NulFree(d) && Parse(d, true).Ok? && Unharmed(d + [NUL], 0)
    ensures Parse(Minified(d), true).Ok? && Parse(Minified(d), true).value == Parse(d, true).value
  {
    hide InStep, ParseValue, BlankEnd, SkipBlanks, Minified, Unharmed;
    var c, m := d + [NUL], Minified(d) + [NUL];
    var f, g := ValuesStart(d, c, m);
    InStepBounds(c, f, m, g);
    var q := ParseValue(c, f, 0).offset;
    assert q < |c| && c[SkipBlanks(c, q)] == NUL by {
      EndOfText(c, q);
    }
    ValueInStep(c, f, m, g, 0);
    var h := ParseValue(m, g, 0).offset;
    InStepBounds(c, q, m, h);
    BlanksInStep(c, q, m, h);
    InStepBounds(c, SkipBlanks(c, q), m, SkipBlanks(m, h));
  }

  /** Where the end is not looked at, a number is read together with what joins it. */
  lemma FrontRereads(d: bytes)
    requires NulFree(d) && Parse(d, false).Ok? && Unharmed(d + [NUL], 0)
    ensures var r, s := Parse(d, false), Parse(Minified(d), false);
            && s.Ok?
            && if r.value.Number? then
                 && r.value == Number(Strtod(NumberRun(d)).value)
                 && s.value == Number(Strtod(NumberRun(d) + Joining(d)).value)
               else s.value == r.value
  {
    hide InStep, ParseValue, BlankEnd, SkipBlanks, Minified, Unharmed, Strtod, NumberEnd;
    var c, m := d + [NUL], Minified(d) + [NUL];
    var f, g := ValuesStart(d, c, m);
    InStepBounds(c, f, m, g);
    ValueKind(c, f);
    if StartsNumber(c[f]) {
      PlainStep(c, f, m, g);
      FrontOutside(c, f);
      ValueOfNumber(c, f);
      ValueOfNumber(m, g);
      NumberJoined(c, f, m, g);
      var e := RunEnd(d);
      assert c[f..e] == d[f..e] && c[e..|c| - 1] == d[e..];
    } else {
      ValueInStep(c, f, m, g, 0);
    }
  }

  /**
    For every document that the parser accepts and of whose strings the minifier keeps every byte: minifying
    keeps the value, unless the value is a number, its end is not looked at, and the number bytes that join it
    make it another number. Comments need no mention: the parser accepts no slash outside strings.
   */
  lemma MinifyKeepsValue(d: bytes, requireNul: bool)
    requires NulFree(d) && Parse(d, requireNul).Ok? && Unharmed(d + [NUL], 0)
    ensures var r, s := Parse(d, requireNul), Parse(Minified(d), requireNul);
            && s.Ok?
            && (s.value == r.value <==>
                  (!requireNul && r.value.Number? ==>
                     Strtod(NumberRun(d) + Joining(d)).value == Strtod(NumberRun(d)).value))
            && (Joining(d) == [] ==> s.value == r.value)
  {
    hide ParseWithLength, Minified, Unharmed, Strtod;
    if requireNul {
      WholeKeepsValue(d);
    } else {
      FrontRereads(d);
      assert NumberRun(d) + [] == NumberRun(d);
    }
  }

  /** No quote comes before the value. */
  lemma FrontOutside(c: bytes, f: nat)
    requires c != [] && f == SkipBlanks(c, SkipBom(c))
    ensures f < |c| && ModeAt(c, f) == Outside
  {
    hide ModeAt;
    assert ModeAt(c, 0) == Outside by { ModeAtStart(c); }
    forall k | 0 <= k < f ensures c[k] != QUOTE {
      if k < SkipBom(c) {
        AtIndex(c, 0, BOM, k);
      }
    }
    StaysOutside(c, 0, f);
  }

  lemma ModeAtStart(c: bytes)
    ensures ModeAt(c, 0) == Outside
  {}

  lemma ValueOfNumber(c: bytes, o: nat)
    requires o < |c| && StartsNumber(c[o])
    ensures ParseValue(c, o, 0) == ParseNumber(c, o)
  {
    hide At, ParseNumber, ParseString, ParseArray, ParseObject;
    ValueStep(c, o, 0);
  }

  /** Exactly the values that start with a minus or a digit are numbers. */
  lemma ValueKind(c: bytes, o: nat)
    requires o < |c| && ParseValue(c, o, 0).Ok?
    ensures ParseValue(c, o, 0).value.Number? <==> StartsNumber(c[o])
  {
    hide ParseString, ParseElems, ParseMembers, Strtod, NumberEnd, SkipBlanks;
    if At(c, o, TEXT_NULL) { AtIndex(c, o, TEXT_NULL, 0); }
    if At(c, o, TEXT_TRUE) { AtIndex(c, o, TEXT_TRUE, 0); }
    if At(c, o, TEXT_FALSE) { AtIndex(c, o, TEXT_FALSE, 0); }
  }

  lemma EndOfText(c: bytes, q: nat)
    requires q <= |c|
    ensures SkipBlanks(c, q) < |c| ==> q < |c|
  {}

  lemma StartInStep(d: bytes)
    requires NulFree(d) && Unharmed(d + [NUL], 0)
    ensures InStep(d + [NUL], 0, Minified(d) + [NUL], 0)
  {
    TrackStart(d);
  }

  lemma TrackStart(d: bytes)
    requires NulFree(d)
    ensures Track(d + [NUL], 0, Minified(d) + [NUL], 0)
  {
    var c, m := d + [NUL], Minified(d) + [NUL];
    assert c[0..|c| - 1] == d && c[..|c| - 1] == d;
    assert m[0..] == m;
  }

  /** The byte order mark is skipped in both texts or in neither. */
  lemma BomInStep(c: bytes, m: bytes, f: nat)
    requires InStep(c, 0, m, 0) && f == SkipBlanks(c, SkipBom(c)) && f < |c|
    requires IsPlain(c[f]) || c[f] == QUOTE
    requires c[f] < 0x80
    ensures SkipBom(m) == SkipBom(c) && InStep(c, SkipBom(c), m, SkipBom(c))
  {
    hide InStep, BlankEnd;
    InStepBounds(c, 0, m, 0);
    if SkipBom(c) == 3 {
      assert c[0..3] == BOM;
      PlainRun(c, 0, m, 0, 3);
      InStepBounds(c, 3, m, 3);
      BlanksInStep(c, 3, m, 3);
      var g := SkipBlanks(m, 3);
      InStepBounds(c, f, m, g);
      NulHere(c, f, m, g);
      PlainOrQuote(c, f, m, g);
    } else {
      BlanksInStep(c, 0, m, 0);
      if At(m, 0, BOM) {
        AtIndex(m, 0, BOM, 0);
        BlankEndAt(m, 0, 0);
      }
    }
  }

  lemma PlainOrQuote(c: bytes, f: nat, m: bytes, g: nat)
    requires InStep(c, f, m, g) && (IsPlain(c[f]) || c[f] == QUOTE)
    ensures g + 1 < |m|
  {
    hide InStep;
    InStepBounds(c, f, m, g);
    if c[f] == QUOTE {
      QuoteStep(c, f, m, g);
    } else {
      PlainStep(c, f, m, g);
      InStepBounds(c, f + 1, m, g + 1);
    }
  }

  /** The text "1 2": read as 1, minified to "12", and read as 12. */
  lemma JoinedNumber()
    ensures var d := [ZERO + 1, SPACE, ZERO + 2];
            && Unharmed(d + [NUL], 0) && NumberRun(d) == [ZERO + 1] && Joining(d) == [ZERO + 2]
            && Minified(d) == [ZERO + 1, ZERO + 2]
            && Parse(d, false) == Ok(Number(1.0), 1) && Parse(Minified(d), false) == Ok(Number(12.0), 2)
  {
    var d: bytes := [ZERO + 1, SPACE, ZERO + 2];
    var c := d + [NUL];
    assert Unharmed(c, 3) && Unharmed(c, 2) && Unharmed(c, 1);
    assert d[1..][1..] == [ZERO + 2] && d[1..] == [SPACE, ZERO + 2] && d[2..] == [ZERO + 2];
    assert Minified([ZERO + 2]) == [ZERO + 2] + Minified([]);
    assert Minified(d[1..]) == [ZERO + 2];
    assert Minified(d) == [ZERO + 1, ZERO + 2];
    NumberText(c, 1, 1);
    NumberText([ZERO + 1, ZERO + 2] + [NUL], 2, 12);
  }

  /** A text of digits at the front. */
  lemma NumberText(c: bytes, n: nat, v: nat)
    requires 0 < n < |c| <= 4 && c[..n] == Digits(v) && !IsNumberByte(c[n])
    ensures ParseWithLength(c, false) == Ok(Number(v as real), n) && SkipBlanks(c, SkipBom(c)) == 0 && NumberEnd(c, 0) == n
  {
    hide Strtod;
    assert At(c, 0, Decimal(v));
    NumberRoundTrip(c, 0, v);
    ValueOfNumber(c, 0);
    forall k | 0 <= k < n ensures IsNumberByte(c[k]) {
      assert c[k] == c[..n][k];
    }
    NumberEndAt(c, 0, n);
    BlankEndAt(c, 0, 0);
  }

  /** The array of a one-backslash string and the string `s`, unformatted. */
  function BackslashThen(s: bytes): (r: Json)
    ensures NulFree(s) ==> Printable(r) && RawFree(r)
  {
    Array([String([BACKSLASH]), String(s)])
  }

  const UNTIDY: bytes :=
    [LBRACKET, QUOTE, BACKSLASH, BACKSLASH, QUOTE, COMMA, QUOTE, SPACE, QUOTE, RBRACKET]

  const UNTIDY_MINIFIED: bytes :=
    [LBRACKET, QUOTE, BACKSLASH, BACKSLASH, QUOTE, COMMA, QUOTE, QUOTE, RBRACKET]

  /** Without a plain closing quote the value can change: a blank inside a later string is lost. */
  lemma UntidyLosesBlank()
    ensures Minified(UNTIDY) == UNTIDY_MINIFIED && !Unharmed(UNTIDY + [NUL], 0)
    ensures Parse(UNTIDY, true).Ok? && Parse(UNTIDY, true).value == BackslashThen([SPACE])
    ensures Parse(UNTIDY_MINIFIED, true).Ok? && Parse(UNTIDY_MINIFIED, true).value == BackslashThen([])
  {
    hide Unharmed, Text, Nesting;
    UntidyText([SPACE], UNTIDY);
    UntidyText([], UNTIDY_MINIFIED);
    DocumentRoundTrip(BackslashThen([SPACE]), false, true);
    DocumentRoundTrip(BackslashThen([]), false, true);
    MinifyUntidy();
    UntidyHarmed(UNTIDY + [NUL]);
  }

  lemma UntidyHarmed(c: bytes)
    requires c == UNTIDY + [NUL]
    ensures !Unharmed(c, 0)
  {
    UntidyScans(c);
    UntidyModes(c);
    assert ScanEnd(c, 7) == Some(8);
    hide ModeAt, ScanEnd;
    assert !KeptAt(c, 7);
    assert !Unharmed(c, 6);
    assert !Unharmed(c, 5);
    assert !Unharmed(c, 1);
  }

  lemma UntidyText(s: bytes, t: bytes)
    requires (s == [SPACE] && t == UNTIDY) || (s == [] && t == UNTIDY_MINIFIED)
    ensures Text(BackslashThen(s), false, 0) == t && Nesting(BackslashThen(s)) == 1
  {
    var es := [String([BACKSLASH]), String(s)];
    assert Escape([]) == [];
    assert Escape([BACKSLASH]) == [BACKSLASH, BACKSLASH] + Escape([]);
    assert s != [] ==> Escape(s) == [SPACE] + Escape([]);
    ElemsTextSplit(es, false, 1);
    assert es[1..] == [String(s)];
    assert ElemsText([String(s)], false, 1) == Quoted(s);
    assert Text(es[0], false, 1) == [QUOTE, BACKSLASH, BACKSLASH, QUOTE];
    assert Quoted(s) == [QUOTE] + s + [QUOTE];
    assert ElemsText(es, false, 1) == [QUOTE, BACKSLASH, BACKSLASH, QUOTE] + ([COMMA] + Quoted(s));
    assert ElemsNesting([]) == 0;
    assert ElemsNesting([String(s)]) == 0 && Nesting(es[0]) == 0;
    assert ElemsNesting(es) == 0;
  }

  lemma MinifiedNothing()
    ensures Minified([]) == []
  {}

  /** The literal runs from the first quote to the one that opens the second string. */
  lemma UntidySpans(s: bytes)
    requires s == UNTIDY + [NUL]
    ensures StringSpan(s[2..10]) == 5 && StringSpan(s[9..10]) == 1
  {
    hide StringSpan;
    StringSpanStep(s, 2, 10);
    StringSpanStep(s, 3, 10);
    StringSpanStep(s, 5, 10);
    StringSpanStep(s, 6, 10);
    StringSpanStep(s, 9, 10);
    StringSpanStep(s, 10, 10);
  }

  lemma UntidyTail(s: bytes)
    requires s == UNTIDY + [NUL]
    ensures Minified(s[7..10]) == [QUOTE, RBRACKET]
  {
    hide Minified, StringSpan;
    UntidySpans(s);
    MinifiedStep(s, 7, 10);
    MinifiedStep(s, 8, 10);
    assert s[10..10] == [] && s[8..10] == [QUOTE, RBRACKET];
    MinifiedNothing();
  }

  lemma MinifyUntidy()
    ensures Minified(UNTIDY) == UNTIDY_MINIFIED
  {
    hide Minified, StringSpan;
    var s := UNTIDY + [NUL];
    assert s[0..10] == UNTIDY;
    UntidySpans(s);
    MinifiedStep(s, 0, 10);
    MinifiedStep(s, 1, 10);
    UntidyTail(s);
    assert s[1..7] == [QUOTE, BACKSLASH, BACKSLASH, QUOTE, COMMA, QUOTE];
  }

  /** Not every quote behind a backslash does harm: this document is not tidy, and no byte of its strings is lost. */
  lemma UntidyMayKeepValue()
    ensures Minified(UNTIDY_MINIFIED) == UNTIDY_MINIFIED
    ensures !Tidy(UNTIDY_MINIFIED + [NUL], 0) && Unharmed(UNTIDY_MINIFIED + [NUL], 0)
  {
    MinifyUntidy();
    MinifyIdempotent(UNTIDY);
    var c := UNTIDY_MINIFIED + [NUL];
    UntidyScans(c);
    assert !CloseIsPlain(c, 2, 4, |c| - 1);
    assert !Tidy(c, 1);
    UntidyModes(c);
    assert Unharmed(c, 9) && Unharmed(c, 8);
    assert ScanEnd(c, 7) == Some(7);
    assert Unharmed(c, 6);
    assert Unharmed(c, 5);
    assert Unharmed(c, 1);
  }

  lemma UntidyScans(c: bytes)
    requires |c| >= 7 && c[..6] == UNTIDY[..6]
    ensures ScanEnd(c, 4) == Some(4) && ScanEnd(c, 2) == Some(4)
  {
    assert c[4] == c[..6][4] && c[2] == c[..6][2];
  }

  lemma UntidyModes(c: bytes)
    requires |c| >= 7 && c[..7] == UNTIDY[..7]
    ensures ModeAt(c, 1) == Outside && ModeAt(c, 2) == Inside && ModeAt(c, 3) == BehindBackslash
    ensures ModeAt(c, 4) == BehindBackslash && ModeAt(c, 5) == Inside && ModeAt(c, 6) == Inside && ModeAt(c, 7) == Outside
  {
    assert forall k :: 0 <= k < 7 ==> c[k] == UNTIDY[..7][k];
    assert ModeAt(c, 1) == Outside;
    assert ModeAt(c, 2) == Inside;
    assert ModeAt(c, 3) == BehindBackslash;
    assert ModeAt(c, 4) == BehindBackslash;
    assert ModeAt(c, 5) == Inside;
  }

  // ---- harm that no one sees ----

  /** An array of a one-backslash string and a string that starts with the character 0 and goes on with `s`. */
  function CutShort(s: bytes): bytes {
    UNTIDY[..7] + [BACKSLASH, LOWER_U, ZERO, ZERO, ZERO, ZERO] + s + [QUOTE, RBRACKET]
  }

  /** The parser cuts a string at a character 0, so that a blank lost behind it does not matter. */
  lemma HarmUnseen()
    ensures !Unharmed(CutShort([SPACE]) + [NUL], 0) && Minified(CutShort([SPACE])) == CutShort([])
    ensures Parse(CutShort([SPACE]), true).Ok? && Parse(CutShort([]), true).Ok?
    ensures Parse(CutShort([SPACE]), true).value == Parse(CutShort([]), true).value
  {
    hide Minified, Unharmed, Parse, CutShort;
    CutShortReads([SPACE]);
    CutShortReads([]);
    CutShortMinified();
    CutShortHarmed(CutShort([SPACE]) + [NUL]);
  }

  lemma CutShortHarmed(c: bytes)
    requires c == CutShort([SPACE]) + [NUL]
    ensures !Unharmed(c, 0)
  {
    UntidyScans(c);
    UntidyModes(c);
    StaysOutside(c, 7, 13);
    CutShortScan(c, [SPACE]);
    hide ModeAt, ScanEnd;
    assert !KeptAt(c, 13);
    assert !Unharmed(c, 6);
    assert !Unharmed(c, 5);
    assert !Unharmed(c, 1);
  }

  lemma CutShortScan(c: bytes, s: bytes)
    requires (s == [SPACE] || s == []) && c == CutShort(s) + [NUL]
    ensures ScanEnd(c, 7) == Some(13 + |s|) && Unescape(c, 13, 13 + |s|).Unescaped?
  {
    assert ScanEnd(c, 13) == Some(13 + |s|);
    assert ScanEnd(c, 11) == Some(13 + |s|);
    assert ScanEnd(c, 9) == Some(13 + |s|);
    assert Unescape(c, 13 + |s|, 13 + |s|) == Unescaped([]);
  }

  lemma CutShortReads(s: bytes)
    requires s == [SPACE] || s == []
    ensures Parse(CutShort(s), true) == Ok(Array([String([BACKSLASH]), String([])]), 15 + |s|)
  {
    var c := CutShort(s) + [NUL];
    FirstString(c);
    SecondString(c, s);
    assert c[0] == LBRACKET && c[1] == QUOTE && c[5] == COMMA && c[6] == QUOTE;
    assert c[14 + |s|] == RBRACKET && c[15 + |s|] == NUL;
    hide CutShort;
    TwoStrings(c, 14 + |s|);
  }

  lemma FirstString(c: bytes)
    requires |c| >= 7 && c[..6] == UNTIDY[..6]
    ensures ParseString(c, 1) == Ok([BACKSLASH], 5)
  {
    assert c[1] == c[..6][1] && c[2] == c[..6][2] && c[3] == c[..6][3];
    UntidyScans(c);
    hide ScanEnd;
    assert Unescape(c, 4, 4) == Unescaped([]);
    assert Unescape(c, 2, 4) == Unescaped([BACKSLASH] + []);
    CStringOfNulFree([BACKSLASH]);
  }

  lemma SecondString(c: bytes, s: bytes)
    requires (s == [SPACE] || s == []) && c == CutShort(s) + [NUL]
    ensures ParseString(c, 6) == Ok([], 14 + |s|)
  {
    var e := 13 + |s|;
    CutShortScan(c, s);
    assert ReadPiece(c, 7, e) == Piece([NUL], 6);
    assert c[6] == QUOTE;
    hide ScanEnd, ReadPiece, CutShort;
    assert Unescape(c, 7, e) == Prepend([NUL], Unescape(c, 13, e));
    assert CString([NUL] + Unescape(c, 13, e).out) == [];
  }

  /** An array of two strings, up to the closing bracket at `k` and the NUL behind it. */
  lemma TwoStrings(c: bytes, k: nat)
    requires |c| == k + 2 && k > 6 && c[0] == LBRACKET && c[1] == QUOTE && c[5] == COMMA && c[6] == QUOTE
    requires c[k] == RBRACKET && c[k + 1] == NUL
    requires ParseString(c, 1) == Ok([BACKSLASH], 5) && ParseString(c, 6) == Ok([], k)
    ensures ParseWithLength(c, true) == Ok(Array([String([BACKSLASH]), String([])]), k + 1)
  {
    hide ParseString, ParseElems, ParseArray, ParseValue, BlankEnd, At;
    BlankEndAt(c, 0, 0);
    BlankEndAt(c, 1, 1);
    BlankEndAt(c, 5, 5);
    BlankEndAt(c, 6, 6);
    BlankEndAt(c, k, k);
    ValueStep(c, 0, 0);
    ValueStep(c, 1, 1);
    ValueStep(c, 6, 1);
    ElemsStep(c, 6, 6, 1, String([]), k, k);
    ElemsStep(c, 1, 1, 1, String([BACKSLASH]), 5, 5);
    ArrayStep(c, 0, 1, 0);
    assert [String([BACKSLASH])] + [String([])] == [String([BACKSLASH]), String([])];
    if At(c, 0, BOM) { AtIndex(c, 0, BOM, 0); }
    OnlyNul(c, k + 1);
  }

  lemma OnlyNul(c: bytes, o: nat)
    requires o + 1 == |c| && c[o] == NUL
    ensures BlankEnd(c, o) == |c|
  {}

  lemma CutShortMinified()
    ensures Minified(CutShort([SPACE])) == CutShort([])
  {
    hide Minified, Rest, ModeAt;
    var d := CutShort([SPACE]);
    var c, m := d + [NUL], Minified(d) + [NUL];
    UntidyModes(c);
    StaysOutside(c, 7, 13);
    assert Track(c, 0, m, 0) by { TrackStart(d); }
    forall k | 0 <= k < 13 ensures KeptAt(c, k) {}
    KeptRun(c, 0, m, 0, 13);
    CutShortTail(c);
    assert m[13..] == [QUOTE, RBRACKET] + [NUL];
    assert m == m[0..13] + m[13..] && c[0..13] == d[..13];
    assert Minified(d) == m[..|m| - 1];
  }

  lemma CutShortTail(c: bytes)
    requires c == CutShort([SPACE]) + [NUL] && ModeAt(c, 13) == Outside
    ensures Rest(c, 13, |c| - 1, ModeAt(c, 13)) == [QUOTE, RBRACKET]
  {
    hide Minified;
    MinifiedStep(c, 13, 16);
    MinifiedStep(c, 14, 16);
    assert c[15..16] == [RBRACKET] && StringSpan([]) == 0;
    assert c[16..16] == [] && c[14..16] == [QUOTE, RBRACKET];
    MinifiedNothing();
  }

  // ---- plain quotes do no harm ----

  /** Inside a literal of the parser the minifier never believes to be outside. */
  lemma {:induction false} LiteralModes(c: bytes, i: nat, e: nat, k: nat)
    requires i <= k <= e < |c| && ScanEnd(c, i) == Some(e) && ModeAt(c, i) != Outside
    requires ModeAt(c, i) == BehindBackslash ==> i > 0 && c[i - 1] == BACKSLASH
    ensures ModeAt(c, k) != Outside && (ModeAt(c, k) == BehindBackslash ==> k > 0 && c[k - 1] == BACKSLASH)
    decreases e - i
  {
    if k == i {
    } else if c[i] == BACKSLASH {
      assert ModeAt(c, i + 1) == BehindBackslash;
      if k > i + 1 {
        LiteralModes(c, i + 2, e, k);
      }
    } else {
      LiteralModes(c, i + 1, e, k);
    }
  }

  /** If every literal closes with a plain quote, the minifier keeps every byte of them. */
  lemma {:induction false} TidyUnharmed(c: bytes, o: nat)
    requires o <= |c| && ModeAt(c, o) == Outside && Tidy(c, o)
    ensures Unharmed(c, o)
    decreases |c| - o
  {
    if o + 1 >= |c| {
    } else if c[o] != QUOTE {
      TidyUnharmed(c, o + 1);
    } else if ScanEnd(c, o + 1).Some? {
      var e := ScanEnd(c, o + 1).value;
      assert ModeAt(c, o + 1) == Inside;
      forall k | o <= k <= e ensures KeptAt(c, k) {
        if k > o {
          LiteralModes(c, o + 1, e, k);
        }
      }
      LiteralModes(c, o + 1, e, e);
      if e + 2 < |c| {
        if e == o + 1 {
          assert ModeAt(c, e) == Inside;
        }
        TidyUnharmed(c, e + 1);
      }
    }
  }
}
