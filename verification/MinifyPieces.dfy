/**
  What cJSON_Minify keeps, said of the pieces that a text consists of: blanks, comments, literals and other bytes.
  Every text is cut into pieces, the last of which may be open, and the minified text is the pieces that are kept.
 */
module MinifyPieces {
  import opened Bytes
  import opened JsonText
  import opened JsonSyntax
  import opened Minify

  /** `content` is what is between the marks of a comment or the quotes of a literal. */
  datatype Piece =
    | Gap(b: byte)
    | LineComment(content: bytes)
    | BlockComment(content: bytes)
    | LoneSlash
    | Literal(content: bytes)
    | Other(b: byte)

  /** The end of a text: nothing, or a comment or a literal that is not closed. */
  datatype Tail = Done | OpenLine(content: bytes) | OpenBlock(content: bytes) | OpenLiteral(content: bytes)

  function PieceText(p: Piece): (t: bytes)
    ensures t != []
  {
    match p
    case Gap(b) => [b]
    case LineComment(t) => Ascii("//") + t + Ascii("\n")
    case BlockComment(t) => Ascii("/*") + t + Ascii("*/")
    case LoneSlash => Ascii("/")
    case Literal(t) => Ascii("\"") + t + Ascii("\"")
    case Other(b) => [b]
  }

  function TailText(z: Tail): bytes {
    match z
    case Done => []
    case OpenLine(t) => Ascii("//") + t
    case OpenBlock(t) => Ascii("/*") + t
    case OpenLiteral(t) => Ascii("\"") + t
  }

  function PiecesText(ps: seq<Piece>, z: Tail): bytes {
    if ps == [] then TailText(z) else PieceText(ps[0]) + PiecesText(ps[1..], z)
  }

  /** The two bytes do not stand next to each other in the text. */
  predicate Apart(t: bytes, a: char, b: char) {
    forall k :: 0 < k < |t| ==> !(t[k - 1] == a as int && t[k] == b as int)
  }

  /** Every quote in the text follows a backslash. */
  predicate QuotesEscaped(t: bytes) {
    forall k :: 0 <= k < |t| && t[k] == '"' as int ==> k > 0 && t[k - 1] == '\\' as int
  }

  predicate IsGap(b: byte) {
    b == ' ' as int || b == '\t' as int || b == '\r' as int || b == '\n' as int
  }

  predicate PieceOk(p: Piece) {
    match p
    case Gap(b) => IsGap(b)
    case LineComment(t) => '\n' as int !in t
    case BlockComment(t) => Apart(t, '*', '/')
    case LoneSlash => true
    case Literal(t) => QuotesEscaped(t) && (t != [] ==> t[|t| - 1] != '\\' as int)
    case Other(b) => !IsGap(b) && b != '/' as int && b != '"' as int
  }

  predicate TailOk(z: Tail) {
    match z
    case Done => true
    case OpenLine(t) => '\n' as int !in t
    case OpenBlock(t) => Apart(t, '*', '/')
    case OpenLiteral(t) => QuotesEscaped(t)
  }

  /** A lone slash is one that begins no comment. */
  predicate PiecesOk(ps: seq<Piece>, z: Tail) {
    if ps == [] then TailOk(z)
    else
      && PieceOk(ps[0]) && PiecesOk(ps[1..], z)
      && (ps[0].LoneSlash? ==>
            var rest := PiecesText(ps[1..], z); rest != [] ==> rest[0] != '/' as int && rest[0] != '*' as int)
  }

  /** Literals and other bytes are kept. */
  function Kept(ps: seq<Piece>, z: Tail): bytes {
    if ps == [] then (if z.OpenLiteral? then TailText(z) else [])
    else (if ps[0].Literal? || ps[0].Other? then PieceText(ps[0]) else []) + Kept(ps[1..], z)
  }

  // ---- spans ----

  lemma {:induction false} LineSpanIs(t: bytes, rest: bytes)
    requires '\n' as int !in t && (rest != [] ==> rest[0] == '\n' as int)
    ensures LineSpan(t + rest) == |t| + if rest == [] then 0 else 1
    decreases |t|
  {
    if t == [] {
      assert t + rest == rest;
    } else {
      assert (t + rest)[0] == t[0] && (t + rest)[1..] == t[1..] + rest;
      LineSpanIs(t[1..], rest);
    }
  }

  lemma {:induction false} BlockSpanIs(t: bytes, rest: bytes)
    requires Apart(t, '*', '/') && (rest == [] || StartsWith(rest, STAR, SLASH))
    ensures BlockSpan(t + rest) == |t| + if rest == [] then 0 else 2
    decreases |t|
  {
    if t == [] {
      assert t + rest == rest;
    } else {
      var u := t + rest;
      assert u[0] == t[0] && u[1..] == t[1..] + rest;
      assert Apart(t[1..], '*', '/') by {
        assert forall k :: 0 <= k < |t| - 1 ==> t[1..][k] == t[k + 1];
      }
      assert |t| == 1 && rest != [] ==> u[1] == rest[0];
      assert |t| > 1 ==> u[1] == t[1];
      BlockSpanIs(t[1..], rest);
    }
  }

  lemma {:induction false} StringSpanIs(t: bytes, rest: bytes)
    requires QuotesEscaped(t) && (rest != [] ==> rest[0] == QUOTE && (t != [] ==> t[|t| - 1] != BACKSLASH))
    ensures StringSpan(t + rest) == |t| + if rest == [] then 0 else 1
    decreases |t|
  {
    if t == [] {
      assert t + rest == rest;
    } else {
      var u := t + rest;
      var n := if |t| > 1 && t[0] == BACKSLASH && t[1] == QUOTE then 2 else 1;
      assert u[0] == t[0] && u[n..] == t[n..] + rest;
      assert |t| > 1 ==> u[1] == t[1];
      assert |t| == 1 && rest != [] ==> u[1] == rest[0];
      assert forall k :: 0 <= k < |t| - n ==> t[n..][k] == t[k + n];
      StringSpanIs(t[n..], rest);
    }
  }

  // ---- the minified text ----

  lemma OneByte(b: byte, rest: bytes)
    ensures ([b] + rest)[0] == b && ([b] + rest)[1..] == rest && |[b] + rest| == 1 + |rest|
    ensures rest != [] ==> ([b] + rest)[1] == rest[0]
  {}

  lemma LineMinified(t: bytes, rest: bytes)
    requires '\n' as int !in t
    ensures Minified(Ascii("//") + t + rest) == if rest == [] then [] else Minified(rest[1..])
    requires rest != [] ==> rest[0] == '\n' as int
  {
    hide LineSpan, BlockSpan, StringSpan;
    var s := Ascii("//") + t + rest;
    assert s[0] == SLASH && s[1] == SLASH && s[2..] == t + rest;
    LineSpanIs(t, rest);
    assert s[2 + LineSpan(s[2..])..] == if rest == [] then [] else rest[1..];
  }

  lemma BlockMinified(t: bytes, rest: bytes)
    requires Apart(t, '*', '/') && (rest == [] || StartsWith(rest, STAR, SLASH))
    ensures Minified(Ascii("/*") + t + rest) == if rest == [] then [] else Minified(rest[2..])
  {
    hide LineSpan, BlockSpan, StringSpan, Apart;
    var s := Ascii("/*") + t + rest;
    assert s[0] == SLASH && s[1] == STAR && s[2..] == t + rest;
    BlockSpanIs(t, rest);
    assert s[2 + BlockSpan(s[2..])..] == if rest == [] then [] else rest[2..];
  }

  lemma QuoteSlices(t: bytes, rest: bytes)
    requires rest != [] ==> rest[0] == QUOTE
    ensures var s := Ascii("\"") + t + rest;
            && s[0] == QUOTE && s[1..] == t + rest
            && (rest == [] ==> s[..1 + |t|] == Ascii("\"") + t && s[1 + |t|..] == [])
            && (rest != [] ==> s[..2 + |t|] == Ascii("\"") + t + Ascii("\"") && s[2 + |t|..] == rest[1..])
  {}

  lemma QuoteStep(s: bytes)
    requires s != [] && s[0] == QUOTE
    ensures var n := 1 + StringSpan(s[1..]); n <= |s| && Minified(s) == s[..n] + Minified(s[n..])
  {
    hide StringSpan, LineSpan, BlockSpan;
  }

  lemma LiteralMinified(t: bytes, rest: bytes)
    requires QuotesEscaped(t) && (rest != [] ==> rest[0] == QUOTE && (t != [] ==> t[|t| - 1] != BACKSLASH))
    ensures Minified(Ascii("\"") + t + rest) ==
            if rest == [] then Ascii("\"") + t else Ascii("\"") + t + Ascii("\"") + Minified(rest[1..])
  {
    hide *;
    QuoteSlices(t, rest);
    StringSpanIs(t, rest);
    QuoteStep(Ascii("\"") + t + rest);
    NothingMinified();
  }

  lemma Between(a: bytes, t: bytes, b: bytes, rest: bytes)
    ensures (a + t + b) + rest == a + t + (b + rest)
    ensures (b + rest)[|b|..] == rest
  {}

  lemma Marks(rest: bytes)
    ensures Ascii("\n") == ['\n' as int] && Ascii("\"") == [QUOTE] && Ascii("/") == [SLASH]
    ensures |Ascii("*/")| == 2 && StartsWith(Ascii("*/") + rest, STAR, SLASH)
  {}

  lemma Closed(p: Piece)
    requires PieceOk(p)
    ensures p.LineComment? ==> '\n' as int !in p.content
    ensures p.BlockComment? ==> Apart(p.content, '*', '/')
    ensures p.Literal? ==> QuotesEscaped(p.content) && (p.content != [] ==> p.content[|p.content| - 1] != BACKSLASH)
    ensures p.Gap? ==> IsGap(p.b)
    ensures p.Other? ==> !IsGap(p.b) && p.b != SLASH && p.b != QUOTE
    ensures !IsGap(SLASH) && SLASH != QUOTE
    ensures PieceText(p) ==
            match p
            case Gap(b) => [b]
            case LineComment(t) => Ascii("//") + t + Ascii("\n")
            case BlockComment(t) => Ascii("/*") + t + Ascii("*/")
            case LoneSlash => [SLASH]
            case Literal(t) => Ascii("\"") + t + Ascii("\"")
            case Other(b) => [b]
  {}

  /** One piece in front of any text. */
  lemma PieceMinified(p: Piece, rest: bytes)
    requires PieceOk(p) && (p.LoneSlash? && rest != [] ==> rest[0] != SLASH && rest[0] != STAR)
    ensures Minified(PieceText(p) + rest) == (if p.Literal? || p.Other? then PieceText(p) else []) + Minified(rest)
  {
    hide *;
    Closed(p);
    Marks(rest);
    match p
    case Gap(b) => PlainMinified(b, rest);
    case LoneSlash => PlainMinified(SLASH, rest);
    case Other(b) => PlainMinified(b, rest);
    case LineComment(t) =>
      Between(Ascii("//"), t, Ascii("\n"), rest);
      LineMinified(t, Ascii("\n") + rest);
    case BlockComment(t) =>
      Between(Ascii("/*"), t, Ascii("*/"), rest);
      BlockMinified(t, Ascii("*/") + rest);
    case Literal(t) =>
      Between(Ascii("\""), t, Ascii("\""), rest);
      LiteralMinified(t, Ascii("\"") + rest);
  }

  lemma PlainMinified(b: byte, rest: bytes)
    requires IsGap(b) || b != QUOTE
    requires b == SLASH && rest != [] ==> rest[0] != SLASH && rest[0] != STAR
    ensures Minified([b] + rest) == (if IsGap(b) || b == SLASH then [] else [b]) + Minified(rest)
  {
    hide LineSpan, BlockSpan, StringSpan;
    OneByte(b, rest);
  }

  lemma TailMinified(z: Tail)
    requires TailOk(z)
    ensures Minified(TailText(z)) == Kept([], z)
  {
    hide Minified, Apart, QuotesEscaped;
    var t := TailText(z);
    assert t + [] == t;
    match z
    case Done => NothingMinified();
    case OpenLine(u) => LineMinified(u, []);
    case OpenBlock(u) => BlockMinified(u, []);
    case OpenLiteral(u) => LiteralMinified(u, []);
  }

  lemma NothingMinified()
    ensures Minified([]) == []
  {}

  /** However a text is cut into pieces, the minified text is the pieces that are kept, unchanged and in order. */
  lemma {:induction false} MinifiedPieces(ps: seq<Piece>, z: Tail)
    requires PiecesOk(ps, z)
    ensures Minified(PiecesText(ps, z)) == Kept(ps, z)
    decreases |ps|
  {
    hide Minified, PieceText, PieceOk, TailOk;
    if ps == [] {
      TailMinified(z);
    } else {
      MinifiedPieces(ps[1..], z);
      PieceMinified(ps[0], PiecesText(ps[1..], z));
    }
  }

  // ---- every text consists of pieces ----

  lemma {:induction false} LineCut(s: bytes) returns (t: bytes, rest: bytes)
    ensures s == t + rest && '\n' as int !in t && (rest != [] ==> rest[0] == '\n' as int)
    decreases |s|
  {
    if s == [] || s[0] == '\n' as int {
      t, rest := [], s;
    } else {
      t, rest := LineCut(s[1..]);
      t := [s[0]] + t;
    }
  }

  lemma {:induction false} BlockCut(s: bytes) returns (t: bytes, rest: bytes)
    ensures s == t + rest && Apart(t, '*', '/') && (rest == [] || StartsWith(rest, STAR, SLASH))
    decreases |s|
  {
    if s == [] || StartsWith(s, STAR, SLASH) {
      t, rest := [], s;
    } else {
      var u;
      u, rest := BlockCut(s[1..]);
      t := [s[0]] + u;
      assert u != [] ==> u[0] == s[1];
      assert forall k :: 1 <= k < |t| ==> t[k] == u[k - 1];
    }
  }

  lemma {:induction false} LiteralCut(s: bytes) returns (t: bytes, rest: bytes)
    ensures s == t + rest && QuotesEscaped(t)
    ensures rest != [] ==> rest[0] == QUOTE && (t != [] ==> t[|t| - 1] != BACKSLASH)
    decreases |s|
  {
    if s == [] || s[0] == QUOTE {
      t, rest := [], s;
    } else {
      var n := if StartsWith(s, BACKSLASH, QUOTE) then 2 else 1;
      var u;
      u, rest := LiteralCut(s[n..]);
      t := s[..n] + u;
      assert s == s[..n] + s[n..];
      LiteralCons(s, n, u, rest);
    }
  }

  /** An escaped quote or a byte that is no quote, in front of what is cut already. */
  lemma LiteralCons(s: bytes, n: nat, u: bytes, rest: bytes)
    requires s != [] && s[0] != QUOTE && n == (if StartsWith(s, BACKSLASH, QUOTE) then 2 else 1) && s[n..] == u + rest
    requires QuotesEscaped(u) && (rest != [] ==> rest[0] == QUOTE && (u != [] ==> u[|u| - 1] != BACKSLASH))
    ensures QuotesEscaped(s[..n] + u) && (rest != [] ==> (s[..n] + u)[|s[..n] + u| - 1] != BACKSLASH)
  {
    var t := s[..n] + u;
    forall k | 0 <= k < |t| && t[k] == QUOTE ensures k > 0 && t[k - 1] == BACKSLASH {
      if k >= n {
        assert t[k] == u[k - n];
      }
    }
    if u == [] && rest != [] {
      assert s[n] == s[n..][0] == rest[0];
    }
  }

  /** The text begins with the piece, or is all of it an open one. */
  ghost predicate Begins(s: bytes, p: Piece, rest: bytes, z: Tail) {
    if z.Done? then PieceOk(p) && s == PieceText(p) + rest && (p.LoneSlash? && rest != [] ==> rest[0] != SLASH && rest[0] != STAR)
    else TailOk(z) && s == TailText(z)
  }

  lemma Joined(a: bytes, n: nat, t: bytes, tail: bytes, b: bytes, s: bytes)
    requires |a| == n <= |s| && s[..n] == a && s[n..] == t + tail
    ensures s == a + t + tail
    ensures tail == [] ==> s == a + t
    ensures |tail| >= |b| && tail[..|b|] == b ==> s == (a + t + b) + tail[|b|..]
  {
    assert s == a + (t + tail);
  }

  lemma FirstLine(s: bytes) returns (p: Piece, rest: bytes, z: Tail)
    requires StartsWith(s, SLASH, SLASH)
    ensures Begins(s, p, rest, z)
  {
    var t, tail := LineCut(s[2..]);
    Joined(Ascii("//"), 2, t, tail, Ascii("\n"), s);
    p, rest, z := LineComment(t), if tail == [] then [] else tail[1..], if tail == [] then OpenLine(t) else Done;
  }

  lemma FirstBlock(s: bytes) returns (p: Piece, rest: bytes, z: Tail)
    requires StartsWith(s, SLASH, STAR)
    ensures Begins(s, p, rest, z)
  {
    var t, tail := BlockCut(s[2..]);
    Joined(Ascii("/*"), 2, t, tail, Ascii("*/"), s);
    p, rest, z := BlockComment(t), if tail == [] then [] else tail[2..], if tail == [] then OpenBlock(t) else Done;
  }

  lemma FirstLiteral(s: bytes) returns (p: Piece, rest: bytes, z: Tail)
    requires s != [] && s[0] == QUOTE
    ensures Begins(s, p, rest, z)
  {
    var t, tail := LiteralCut(s[1..]);
    Joined(Ascii("\""), 1, t, tail, Ascii("\""), s);
    p, rest, z := Literal(t), if tail == [] then [] else tail[1..], if tail == [] then OpenLiteral(t) else Done;
  }

  lemma FirstPlain(s: bytes) returns (p: Piece)
    requires s != [] && s[0] != QUOTE && !StartsWith(s, SLASH, SLASH) && !StartsWith(s, SLASH, STAR)
    ensures Begins(s, p, s[1..], Done)
  {
    p := if s[0] == SLASH then LoneSlash else if IsGap(s[0]) then Gap(s[0]) else Other(s[0]);
    assert s == [s[0]] + s[1..];
  }

  /** The first piece of a text, or all of it if that is open. */
  lemma FirstPiece(s: bytes) returns (p: Piece, rest: bytes, z: Tail)
    requires s != []
    ensures Begins(s, p, rest, z)
  {
    hide *;
    if StartsWith(s, SLASH, SLASH) {
      p, rest, z := FirstLine(s);
    } else if StartsWith(s, SLASH, STAR) {
      p, rest, z := FirstBlock(s);
    } else if s[0] == QUOTE {
      p, rest, z := FirstLiteral(s);
    } else {
      p := FirstPlain(s);
      rest, z := s[1..], Done;
    }
  }

  lemma {:induction false} TextOfPieces(s: bytes) returns (ps: seq<Piece>, z: Tail)
    ensures PiecesOk(ps, z) && PiecesText(ps, z) == s
    decreases |s|
  {
    hide PieceOk, TailOk, PieceText, TailText;
    if s == [] {
      ps, z := [], Done;
      NoPieces();
    } else {
      var p, rest;
      p, rest, z := FirstPiece(s);
      if z.Done? {
        ps, z := TextOfPieces(rest);
        ps := [p] + ps;
      } else {
        ps := [];
      }
    }
  }

  lemma NoPieces()
    ensures TailOk(Done) && TailText(Done) == []
  {}

  /** For every text: it consists of pieces, and minifying it leaves those that are kept. */
  lemma MinifiedIsKept(s: bytes)
    ensures exists ps, z :: PiecesOk(ps, z) && PiecesText(ps, z) == s && Minified(s) == Kept(ps, z)
  {
    var ps, z := TextOfPieces(s);
    MinifiedPieces(ps, z);
  }
}
