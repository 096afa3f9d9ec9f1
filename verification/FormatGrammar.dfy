/**
  The format language of mosquitto_sub as its manual page gives it (section "Output Format"), written down
  without either scanner: the parts a format is made of, how each is spelled, and what each prints.
 */
module FormatGrammar {
  import opened Bytes
  import opened FormatString
  import Decimals

  datatype Flag = NoFlag | ZeroFlag | MinusFlag

  /** A part as the user writes it; width and precision are the digits that are written. */
  datatype Part =
    | Plain(c: char)
    | TimeField(c: char)
    | Escape(letter: char)
    | Field(flag: Flag, width: string, precision: Option<string>, letter: char)

  // ---- the tables of the manual page ----

  const LETTERS := "%ACDEFlmPpqRrStxXIjJU"

  const CONTENTS: seq<Content> := [
    PercentSign, TopicAlias, ContentType, CorrelationData, ExpiryInterval, PayloadFormat, PayloadLength, MessageId,
    UserProperties, Payload, Qos, ResponseTopic, Retain, SubscriptionId, Topic, LowerHex, UpperHex, DateTime,
    JsonEscaped, JsonPayload, UnixTime]

  const ESCAPES := "\\0aenrtv"

  const ESCAPED := "\\\0\U{7}\U{1B}\n\r\t\U{B}"

  /** `letter` stands for `content`: both have the same place in their tables. */
  ghost predicate StandsFor(letter: char, content: Content) {
    |LETTERS| == |CONTENTS| && exists j :: 0 <= j < |LETTERS| && LETTERS[j] == letter && CONTENTS[j] == content
  }

  ghost predicate EscapeOf(letter: char, c: char) {
    |ESCAPES| == |ESCAPED| && exists j :: 0 <= j < |ESCAPES| && ESCAPES[j] == letter && ESCAPED[j] == c
  }

  // ---- spelling ----

  function FlagText(flag: Flag): string {
    match flag
    case NoFlag => ""
    case ZeroFlag => "0"
    case MinusFlag => "-"
  }

  function PrecisionText(precision: Option<string>): string {
    if precision.Some? then "." + precision.value else ""
  }

  function Spelling(p: Part): (r: string)
    ensures |r| > 0
  {
    match p
    case Plain(c) => [c]
    case TimeField(c) => ['@', c]
    case Escape(letter) => ['\\', letter]
    case Field(flag, width, precision, letter) => "%" + FlagText(flag) + width + PrecisionText(precision) + [letter]
  }

  function SpellingOf(ps: seq<Part>): string {
    if ps == [] then "" else Spelling(ps[0]) + SpellingOf(ps[1..])
  }

  predicate AllDigits(t: string) {
    forall k :: 0 <= k < |t| ==> IsDigit(t[k])
  }

  /** The parts of the language. A width without a flag starts with no zero: that zero is the flag. */
  ghost predicate WellFormed(p: Part) {
    match p
    case Plain(c) => c !in "%@\\"
    case TimeField(_) => true
    case Escape(letter) => letter in ESCAPES
    case Field(flag, width, precision, letter) =>
      && letter in LETTERS && AllDigits(width) && (precision.Some? ==> AllDigits(precision.value))
      && (flag.NoFlag? && width != "" ==> width[0] != '0')
  }

  ghost predicate AllWellFormed(ps: seq<Part>) {
    forall j :: 0 <= j < |ps| ==> WellFormed(ps[j])
  }

  // ---- meaning ----

  predicate DigitIs(c: char, d: nat) {
    d < 10 && c == "0123456789"[d]
  }

  /** The digits are the numeral of `n`, padded with zeros; no digits at all are zero. */
  ghost predicate Numeral(t: string, n: nat) {
    n < Decimals.Pow10(|t|) && forall k :: 0 <= k < |t| ==> DigitIs(t[k], n / Decimals.Pow10(|t| - 1 - k) % 10)
  }

  /** What is printed for a part. Behind a '-', a zero is taken for padding as well, which left alignment then ignores. */
  ghost predicate Prints(p: Part, item: Item) {
    match p
    case Plain(c) => item == Literal(c)
    case TimeField(c) => item == if c == '@' then Literal('@') else Time(c)
    case Escape(letter) => item.Escaped? && EscapeOf(letter, item.c)
    case Field(flag, width, precision, letter) =>
      && item.Directive? && StandsFor(letter, item.content)
      && item.left == flag.MinusFlag?
      && (item.zero <==> flag.ZeroFlag? || (flag.MinusFlag? && width != "" && width[0] == '0'))
      && Numeral(width, item.width)
      && match precision {
        case None => item.precision == -1
        case Some(t) => item.precision >= 0 && Numeral(t, item.precision)
      }
  }

  predicate StandsAt(s: string, i: nat, t: string) {
    i + |t| <= |s| && s[i..i + |t|] == t
  }

  // ---- tables ----

  lemma LettersSelect(c: char)
    ensures c in LETTERS <==> Selected(c).Some?
    ensures c in LETTERS ==> StandsFor(c, Selected(c).value)
    ensures c in LETTERS ==> !IsDigit(c) && c != '.' && c != '-' && c != '0'
  {
    if Selected(c).Some? {
      var j := LetterPlace(c);
      assert LETTERS[j] == c && CONTENTS[j] == Selected(c).value;
    }
  }

  lemma LetterPlace(c: char) returns (j: nat)
    requires Selected(c).Some?
    ensures j < |LETTERS| == |CONTENTS| && LETTERS[j] == c && CONTENTS[j] == Selected(c).value
  {
    match c
    case '%' => j := 0;
    case 'A' => j := 1;
    case 'C' => j := 2;
    case 'D' => j := 3;
    case 'E' => j := 4;
    case 'F' => j := 5;
    case 'l' => j := 6;
    case 'm' => j := 7;
    case 'P' => j := 8;
    case 'p' => j := 9;
    case 'q' => j := 10;
    case 'R' => j := 11;
    case 'r' => j := 12;
    case 'S' => j := 13;
    case 't' => j := 14;
    case 'x' => j := 15;
    case 'X' => j := 16;
    case 'I' => j := 17;
    case 'j' => j := 18;
    case 'J' => j := 19;
    case 'U' => j := 20;
  }

  lemma EscapesUnescape(c: char)
    ensures c in ESCAPES <==> Unescaped(c).Some?
    ensures c in ESCAPES ==> EscapeOf(c, Unescaped(c).value)
  {
    if Unescaped(c).Some? {
      var j := if c == '\\' then 0 else if c == '0' then 1 else if c == 'a' then 2 else if c == 'e' then 3
        else if c == 'n' then 4 else if c == 'r' then 5 else if c == 't' then 6 else 7;
      assert ESCAPES[j] == c && ESCAPED[j] == Unescaped(c).value;
    }
  }

  // ---- numbers ----

  lemma {:induction false} NumberIsNumeral(t: string)
    requires AllDigits(t)
    ensures Numeral(t, Number(t))
    decreases |t|
  {
    hide Numeral, IsDigit;
    if t == "" {
      NoDigits();
    } else {
      var u := t[..|t| - 1];
      var d := DigitOf(t[|t| - 1]);
      NumberIsNumeral(u);
      assert t == u + [t[|u|]];
      OneMoreDigit(u, Number(u), t[|u|], d);
    }
  }

  lemma NoDigits()
    ensures Numeral("", 0)
  {}

  lemma DigitOf(c: char) returns (d: nat)
    requires IsDigit(c)
    ensures DigitIs(c, d) && d < 10 && d == (c - '0') as nat
  {
    d := (c - '0') as nat;
  }

  lemma OneMoreDigit(u: string, n: nat, c: char, d: nat)
    requires Numeral(u, n) && d < 10 && DigitIs(c, d)
    ensures Numeral(u + [c], n * 10 + d)
  {
    hide Decimals.Pow10, DigitIs;
    var t := u + [c];
    Decimals.Powers(|u|);
    forall k | 0 <= k < |t| ensures DigitIs(t[k], (n * 10 + d) / Decimals.Pow10(|t| - 1 - k) % 10) {
      if k < |u| {
        Decimals.Powers(|u| - 1 - k);
        Decimals.DropDigit(n, d, Decimals.Pow10(|u| - 1 - k));
        assert t[k] == u[k];
      }
    }
  }

  // ---- the scanners on a part ----

  lemma {:induction false} PastRun(s: string, a: nat, e: nat)
    requires a <= e <= |s| && (forall j :: a <= j < e ==> IsDigit(s[j])) && (e < |s| ==> !IsDigit(s[e]))
    ensures PastDigits(s, a) == e
    decreases e - a
  {
    if a == e {
    } else {
      PastRun(s, a + 1, e);
    }
  }

  lemma StandsConcat(s: string, i: nat, t: string, u: string)
    requires StandsAt(s, i, t + u)
    ensures StandsAt(s, i, t) && StandsAt(s, i + |t|, u)
  {
    assert s[i..i + |t|] == s[i..i + |t + u|][..|t|];
    assert s[i + |t|..i + |t| + |u|] == s[i..i + |t + u|][|t|..];
  }

  lemma StandsSlice(s: string, i: nat, t: string)
    requires StandsAt(s, i, t)
    ensures i + |t| <= |s| && s[i..i + |t|] == t
  {}

  lemma StandsIndex(s: string, i: nat, t: string, k: nat)
    requires StandsAt(s, i, t) && k < |t|
    ensures i + k < |s| && s[i + k] == t[k]
  {
    assert s[i + k] == s[i..i + |t|][k];
  }

  /** Where the pieces of a field begin: its width, what is behind the width, and its letter. */
  function WidthStart(p: Part, i: nat): nat
    requires p.Field?
  {
    i + 1 + |FlagText(p.flag)|
  }

  function WidthEnd(p: Part, i: nat): nat
    requires p.Field?
  {
    WidthStart(p, i) + |p.width|
  }

  function LetterPlaceOf(p: Part, i: nat): nat
    requires p.Field?
  {
    WidthEnd(p, i) + |PrecisionText(p.precision)|
  }

  lemma FieldParts(s: string, i: nat, p: Part)
    requires p.Field? && StandsAt(s, i, Spelling(p))
    ensures LetterPlaceOf(p, i) == i + |Spelling(p)| - 1 < |s| && s[i] == '%' && s[LetterPlaceOf(p, i)] == p.letter
    ensures StandsAt(s, i + 1, FlagText(p.flag)) && StandsAt(s, WidthStart(p, i), p.width)
    ensures StandsAt(s, WidthEnd(p, i), PrecisionText(p.precision))
  {
    hide StandsAt, FlagText, PrecisionText;
    var g, w := FlagText(p.flag), PrecisionText(p.precision);
    StandsConcat(s, i, "%" + g + p.width + w, [p.letter]);
    StandsConcat(s, i, "%" + g + p.width, w);
    StandsConcat(s, i, "%" + g, p.width);
    StandsConcat(s, i, "%", g);
    StandsIndex(s, i, "%", 0);
    StandsIndex(s, LetterPlaceOf(p, i), [p.letter], 0);
  }

  lemma DigitRun(s: string, a: nat, t: string)
    requires StandsAt(s, a, t) && AllDigits(t) && a + |t| < |s| && !IsDigit(s[a + |t|])
    ensures PastDigits(s, a) == a + |t|
  {
    hide StandsAt, IsDigit;
    forall j | a <= j < a + |t| ensures IsDigit(s[j]) {
      StandsIndex(s, a, t, j - a);
    }
    PastRun(s, a, a + |t|);
  }

  lemma FieldLetter(p: Part)
    requires p.Field? && WellFormed(p)
    ensures AcceptedConversion(p.letter) && Selected(p.letter).Some? && StandsFor(p.letter, Selected(p.letter).value)
    ensures !IsDigit(p.letter) && p.letter != '.' && p.letter != '-' && p.letter != '0' && !IsDigit('.')
    ensures AllDigits(p.width) && (p.precision.Some? ==> AllDigits(p.precision.value))
  {
    LettersSelect(p.letter);
    ConversionsAgree(p.letter);
  }

  lemma FieldPlaces(p: Part, i: nat)
    requires p.Field?
    ensures WidthStart(p, i) == i + 1 + |FlagText(p.flag)| && |FlagText(p.flag)| == (if p.flag.NoFlag? then 0 else 1)
    ensures WidthEnd(p, i) == WidthStart(p, i) + |p.width|
    ensures LetterPlaceOf(p, i) == WidthEnd(p, i) + |PrecisionText(p.precision)|
    ensures match p.precision
            case None => PrecisionText(p.precision) == ""
            case Some(t) => PrecisionText(p.precision) == "." + t
  {}

  /** The digits behind the dot reach to the letter. */
  lemma PrecisionRun(s: string, i: nat, p: Part)
    requires p.Field? && WellFormed(p) && StandsAt(s, i, Spelling(p)) && p.precision.Some?
    ensures s[WidthEnd(p, i)] == '.' && PastDigits(s, WidthEnd(p, i) + 1) == LetterPlaceOf(p, i)
    ensures s[WidthEnd(p, i) + 1..LetterPlaceOf(p, i)] == p.precision.value
  {
    hide *;
    FieldParts(s, i, p);
    FieldLetter(p);
    FieldPlaces(p, i);
    var e := WidthEnd(p, i);
    StandsConcat(s, e, ".", p.precision.value);
    StandsIndex(s, e, ".", 0);
    DigitRun(s, e + 1, p.precision.value);
    StandsSlice(s, e + 1, p.precision.value);
  }

  /** The digits of the width reach to the dot or the letter. */
  lemma WidthRun(s: string, i: nat, p: Part)
    requires p.Field? && WellFormed(p) && StandsAt(s, i, Spelling(p))
    ensures WidthEnd(p, i) < |s| && PastDigits(s, WidthStart(p, i)) == WidthEnd(p, i)
    ensures s[WidthStart(p, i)..WidthEnd(p, i)] == p.width
    ensures s[WidthEnd(p, i)] == '.' <==> p.precision.Some?
  {
    hide *;
    FieldParts(s, i, p);
    FieldLetter(p);
    FieldPlaces(p, i);
    if p.precision.Some? {
      StandsIndex(s, WidthEnd(p, i), PrecisionText(p.precision), 0);
    }
    DigitRun(s, WidthStart(p, i), p.width);
    StandsSlice(s, WidthStart(p, i), p.width);
  }

  /** The flag is the one that is written. */
  lemma FlagAt(s: string, i: nat, p: Part)
    requires p.Field? && WellFormed(p) && StandsAt(s, i, Spelling(p))
    ensures i + 1 < |s| && (s[i + 1] == '0' <==> p.flag.ZeroFlag?) && (s[i + 1] == '-' <==> p.flag.MinusFlag?)
    ensures p.flag.MinusFlag? ==> i + 2 < |s| && (s[i + 2] == '0' <==> p.width != "" && p.width[0] == '0')
  {
    hide *;
    FieldParts(s, i, p);
    FieldPlaces(p, i);
    FieldLetter(p);
    FlagTexts();
    if !p.flag.NoFlag? {
      StandsIndex(s, i + 1, FlagText(p.flag), 0);
    }
    if p.width != "" {
      StandsIndex(s, WidthStart(p, i), p.width, 0);
      FirstOfWidth(p);
    } else if p.precision.Some? {
      StandsIndex(s, WidthEnd(p, i), PrecisionText(p.precision), 0);
    }
  }

  lemma FlagTexts()
    ensures FlagText(ZeroFlag) == "0" && FlagText(MinusFlag) == "-"
  {}

  lemma FirstOfWidth(p: Part)
    requires p.Field? && WellFormed(p) && p.width != ""
    ensures p.width[0] != '-' && (p.flag.NoFlag? ==> p.width[0] != '0')
  {}

  lemma Conversion(s: string, k: nat)
    requires k < |s|
    ensures var e := PastDigits(s, if s[k] == '0' || s[k] == '-' then k + 1 else k);
            ConversionAt(s, k) == if e < |s| && s[e] == '.' then PastDigits(s, e + 1) else e
  {
    hide PastDigits;
  }

  /** check_format finds the conversion of a field where its letter is. */
  lemma FieldConversion(s: string, i: nat, p: Part)
    requires p.Field? && WellFormed(p) && StandsAt(s, i, Spelling(p))
    ensures i + |Spelling(p)| <= |s| && ConversionAt(s, i + 1) == i + |Spelling(p)| - 1
    ensures s[ConversionAt(s, i + 1)] == p.letter && AcceptedConversion(p.letter)
  {
    hide *;
    FieldParts(s, i, p);
    FieldPlaces(p, i);
    FieldLetter(p);
    FlagAt(s, i, p);
    WidthRun(s, i, p);
    if p.precision.Some? {
      PrecisionRun(s, i, p);
    }
    Conversion(s, i + 1);
  }

  lemma FieldShown(s: string, i: nat, p: Part)
    requires p.Field? && WellFormed(p) && StandsAt(s, i, Spelling(p))
    ensures i + |Spelling(p)| <= |s| && Prints(p, Piece(s, i).0) && Piece(s, i).1 == i + |Spelling(p)|
  {
    hide *;
    FieldParts(s, i, p);
    FieldPlaces(p, i);
    FieldConversion(s, i, p);
    FlagAt(s, i, p);
    FieldLetter(p);
    WidthRun(s, i, p);
    if p.precision.Some? {
      PrecisionRun(s, i, p);
      NumberIsNumeral(p.precision.value);
    }
    DirectiveFields(s, i + 1);
    SameConversion(s, i + 1);
    NumberIsNumeral(p.width);
    PercentPiece(s, i);
    FieldPrints(p, Piece(s, i).0);
  }

  lemma PercentPiece(s: string, i: nat)
    requires i + 1 < |s| && s[i] == '%'
    ensures Piece(s, i).0 == PrintPercent(s, i + 1).0 && Piece(s, i).1 == PrintPercent(s, i + 1).1 + 1
  {
    hide PrintPercent;
  }

  lemma FieldPrints(p: Part, item: Item)
    requires p.Field? && item.Directive? && StandsFor(p.letter, item.content)
    requires item.left == p.flag.MinusFlag?
    requires item.zero <==> p.flag.ZeroFlag? || (p.flag.MinusFlag? && p.width != "" && p.width[0] == '0')
    requires Numeral(p.width, item.width)
    requires if p.precision.None? then item.precision == -1 else item.precision >= 0 && Numeral(p.precision.value, item.precision)
    ensures Prints(p, item)
  {
    hide StandsFor, Numeral;
  }

  /**
    Wherever a part stands when the printer gets there, accepted format or not, it is printed as the manual
    page says, and the printer goes on behind it.
   */
  lemma PartPrinted(s: string, i: nat, p: Part)
    requires WellFormed(p) && StandsAt(s, i, Spelling(p))
    ensures i < |s| && |Printed(s, i)| > 0 && Printed(s, i)[0].start == i && Prints(p, Printed(s, i)[0].item)
    ensures Printed(s, i)[1..] == Printed(s, i + |Spelling(p)|)
  {
    hide *;
    StandsIndex(s, i, Spelling(p), 0);
    if p.Field? {
      FieldShown(s, i, p);
    } else {
      ShortShown(s, i, p);
    }
    FirstPrinted(s, i);
  }

  lemma FirstPrinted(s: string, i: nat)
    requires i < |s|
    ensures |Printed(s, i)| > 0 && Printed(s, i)[0] == Token(i, Piece(s, i).0) && Printed(s, i)[1..] == Printed(s, Piece(s, i).1)
  {
    hide Piece;
  }

  lemma ShortShown(s: string, i: nat, p: Part)
    requires !p.Field? && WellFormed(p) && StandsAt(s, i, Spelling(p))
    ensures i < |s| && Prints(p, Piece(s, i).0) && Piece(s, i).1 == i + |Spelling(p)|
  {
    hide EscapeOf, StandsFor, Numeral, PrintPercent, StandsAt;
    StandsIndex(s, i, Spelling(p), 0);
    if !p.Plain? {
      StandsIndex(s, i, Spelling(p), 1);
    }
    if p.Escape? {
      EscapesUnescape(p.letter);
    }
  }

  /** A format of the language, or a stretch of it anywhere in a format: every part is printed, in order. */
  lemma {:induction false} PartsPrinted(s: string, i: nat, ps: seq<Part>)
    requires AllWellFormed(ps) && StandsAt(s, i, SpellingOf(ps))
    ensures i + |SpellingOf(ps)| <= |s| && |Printed(s, i)| >= |ps|
    ensures Printed(s, i)[|ps|..] == Printed(s, i + |SpellingOf(ps)|)
    ensures forall j :: 0 <= j < |ps| ==>
              Printed(s, i)[j].start == i + |SpellingOf(ps[..j])| && Prints(ps[j], Printed(s, i)[j].item)
    decreases |ps|
  {
    hide Spelling, Prints, Printed, WellFormed;
    if ps == [] {
    } else {
      var n := |Spelling(ps[0])|;
      StandsConcat(s, i, Spelling(ps[0]), SpellingOf(ps[1..]));
      PartPrinted(s, i, ps[0]);
      PartsPrinted(s, i + n, ps[1..]);
      PartsShift(Printed(s, i), Printed(s, i + n), i, ps);
    }
  }

  /** What is printed for one part, and behind it for the others, is printed for all. */
  lemma PartsShift(out: seq<Token>, rest: seq<Token>, i: nat, ps: seq<Part>)
    requires ps != [] && |out| > 0 && out[1..] == rest && |rest| >= |ps| - 1
    requires out[0].start == i && Prints(ps[0], out[0].item)
    requires forall j :: 0 <= j < |ps| - 1 ==>
               rest[j].start == i + |Spelling(ps[0])| + |SpellingOf(ps[1..][..j])| && Prints(ps[1..][j], rest[j].item)
    ensures out[|ps|..] == rest[|ps| - 1..]
    ensures forall j :: 0 <= j < |ps| ==> out[j].start == i + |SpellingOf(ps[..j])| && Prints(ps[j], out[j].item)
  {
    hide Spelling, Prints;
    forall j | 0 <= j < |ps| ensures out[j].start == i + |SpellingOf(ps[..j])| && Prints(ps[j], out[j].item) {
      if j > 0 {
        assert out[j] == out[1..][j - 1] == rest[j - 1] && ps[j] == ps[1..][j - 1];
        assert ps[..j][0] == ps[0] && ps[..j][1..] == ps[1..][..j - 1];
      }
    }
  }

  function PlainParts(t: string): (ps: seq<Part>)
    ensures |ps| == |t| && forall j :: 0 <= j < |t| ==> ps[j] == Plain(t[j])
  {
    seq(|t|, j requires 0 <= j < |t| => Plain(t[j]))
  }

  lemma {:induction false} SpellingOfPlain(t: string)
    ensures SpellingOf(PlainParts(t)) == t
    decreases |t|
  {
    if t == "" {
    } else {
      SpellingOfPlain(t[1..]);
      assert PlainParts(t)[1..] == PlainParts(t[1..]);
      assert t == [t[0]] + t[1..];
    }
  }

  lemma PlainMeans(t: string, j: nat)
    requires j < |t|
    ensures forall item :: Prints(PlainParts(t)[j], item) ==> item == Literal(t[j])
    ensures PlainParts(t)[..j] == PlainParts(t[..j])
  {}

  lemma PlainWellFormed(t: string)
    requires forall j :: 0 <= j < |t| ==> t[j] !in "%@\\"
    ensures AllWellFormed(PlainParts(t))
  {}

  /** Text without the three characters that start a sequence is printed as it is, wherever it stands. */
  lemma PlainPrinted(s: string, i: nat, t: string)
    requires StandsAt(s, i, t) && forall j :: 0 <= j < |t| ==> t[j] !in "%@\\"
    ensures i + |t| <= |s| && |Printed(s, i)| >= |t| && Printed(s, i)[|t|..] == Printed(s, i + |t|)
    ensures forall j :: 0 <= j < |t| ==> Printed(s, i)[j] == Token(i + j, Literal(t[j]))
  {
    hide *;
    var ps := PlainParts(t);
    SpellingOfPlain(t);
    PlainWellFormed(t);
    PartsPrinted(s, i, ps);
    forall j | 0 <= j < |t| ensures Printed(s, i)[j] == Token(i + j, Literal(t[j])) {
      SpellingOfPlain(t[..j]);
      PlainMeans(t, j);
    }
  }

  // ---- check_format accepts the language ----

  lemma PartAccepted(s: string, i: nat, p: Part)
    requires WellFormed(p) && StandsAt(s, i, Spelling(p))
    ensures i < |s| && CheckedPiece(s, i) == Some(i + |Spelling(p)|)
  {
    hide StandsAt, ConversionAt, AcceptedConversion;
    if p.Field? {
      hide WellFormed, Spelling, FlagText, PrecisionText;
      FieldParts(s, i, p);
      FieldConversion(s, i, p);
      return;
    }
    StandsIndex(s, i, Spelling(p), 0);
    if !p.Plain? {
      StandsIndex(s, i, Spelling(p), 1);
    }
  }

  lemma {:induction false} PartsAccepted(s: string, i: nat, ps: seq<Part>)
    requires AllWellFormed(ps) && i <= |s| && s[i..] == SpellingOf(ps)
    ensures Accepted(s, i)
    decreases |ps|
  {
    hide Spelling, WellFormed, CheckedPiece;
    if ps == [] {
      assert i == |s|;
    } else {
      assert StandsAt(s, i, SpellingOf(ps));
      StandsConcat(s, i, Spelling(ps[0]), SpellingOf(ps[1..]));
      PartAccepted(s, i, ps[0]);
      PartsAccepted(s, i + |Spelling(ps[0])|, ps[1..]);
    }
  }

  /** The part that check_format finds at `i`. */
  lemma PartOf(s: string, i: nat) returns (p: Part)
    requires i < |s| && CheckedPiece(s, i).Some?
    ensures WellFormed(p) && StandsAt(s, i, Spelling(p)) && CheckedPiece(s, i) == Some(i + |Spelling(p)|)
  {
    hide *;
    if s[i] == '%' {
      PercentChecked(s, i);
      p := FieldAt(s, i);
      FieldAtSpelling(s, i);
      FieldAtWellFormed(s, i);
    } else {
      p := ShortPart(s, i);
    }
  }

  lemma PercentChecked(s: string, i: nat)
    requires i < |s| && s[i] == '%' && CheckedPiece(s, i).Some?
    ensures i + 1 < |s| && ConversionAt(s, i + 1) < |s| && AcceptedConversion(s[ConversionAt(s, i + 1)])
    ensures CheckedPiece(s, i) == Some(ConversionAt(s, i + 1) + 1)
  {
    hide ConversionAt, AcceptedConversion;
  }

  lemma ShortPart(s: string, i: nat) returns (p: Part)
    requires i < |s| && s[i] != '%' && CheckedPiece(s, i).Some?
    ensures WellFormed(p) && StandsAt(s, i, Spelling(p)) && CheckedPiece(s, i) == Some(i + |Spelling(p)|)
  {
    if s[i] == '@' {
      p := TimeField(s[i + 1]);
      assert s[i..i + 2] == Spelling(p);
    } else if s[i] == '\\' {
      p := Escape(s[i + 1]);
      assert s[i..i + 2] == Spelling(p);
    } else {
      p := Plain(s[i]);
      assert s[i..i + 1] == Spelling(p);
    }
  }

  /** The field whose flag, width, dot and letter are where check_format finds them. */
  function FieldAt(s: string, i: nat): (p: Part)
    requires i + 1 < |s| && ConversionAt(s, i + 1) < |s|
  {
    var flag := if s[i + 1] == '0' then ZeroFlag else if s[i + 1] == '-' then MinusFlag else NoFlag;
    var a := if s[i + 1] == '0' || s[i + 1] == '-' then i + 2 else i + 1;
    var e := PastDigits(s, a);
    var f := ConversionAt(s, i + 1);
    Field(flag, s[a..e], if s[e] == '.' then Some(s[e + 1..f]) else None, s[f])
  }

  lemma FieldAtSpelling(s: string, i: nat)
    requires i + 1 < |s| && s[i] == '%' && ConversionAt(s, i + 1) < |s|
    ensures var p := FieldAt(s, i); StandsAt(s, i, Spelling(p)) && ConversionAt(s, i + 1) == i + |Spelling(p)| - 1
  {
    hide PastDigits;
    var p, f := FieldAt(s, i), ConversionAt(s, i + 1);
    var a := if s[i + 1] == '0' || s[i + 1] == '-' then i + 2 else i + 1;
    var e := PastDigits(s, a);
    assert s[i..a] == "%" + FlagText(p.flag);
    assert s[e..f] == PrecisionText(p.precision);
    FourParts(s, i, a, e, f);
  }

  lemma FourParts(s: string, i: nat, a: nat, e: nat, f: nat)
    requires i <= a <= e <= f < |s|
    ensures s[i..f + 1] == s[i..a] + s[a..e] + s[e..f] + [s[f]]
  {}

  lemma DigitSlice(s: string, a: nat)
    requires a <= |s|
    ensures AllDigits(s[a..PastDigits(s, a)])
  {
    hide IsDigit;
  }

  lemma FirstOfSlice(s: string, a: nat, e: nat)
    requires a <= e <= |s| && s[a..e] != ""
    ensures a < |s| && s[a..e][0] == s[a]
  {}

  lemma FieldAtWellFormed(s: string, i: nat)
    requires i + 1 < |s| && ConversionAt(s, i + 1) < |s| && AcceptedConversion(s[ConversionAt(s, i + 1)])
    ensures WellFormed(FieldAt(s, i))
  {
    var a := if s[i + 1] == '0' || s[i + 1] == '-' then i + 2 else i + 1;
    var e, f := PastDigits(s, a), ConversionAt(s, i + 1);
    ConversionsAgree(s[f]);
    LettersSelect(s[f]);
    DigitSlice(s, a);
    Conversion(s, i + 1);
    if s[e] == '.' {
      DigitSlice(s, e + 1);
    }
    if s[a..e] != "" {
      FirstOfSlice(s, a, e);
    }
    hide AcceptedConversion, Selected, IsDigit, AllDigits, PastDigits, ConversionAt, StandsFor, LETTERS;
  }

  lemma {:induction false} PartsOf(s: string, i: nat) returns (ps: seq<Part>)
    requires i <= |s| && Accepted(s, i)
    ensures AllWellFormed(ps) && SpellingOf(ps) == s[i..]
    decreases |s| - i
  {
    hide Spelling, WellFormed, CheckedPiece;
    if i == |s| {
      ps := [];
    } else {
      var p := PartOf(s, i);
      var n := |Spelling(p)|;
      var qs := PartsOf(s, i + n);
      ps := [p] + qs;
      assert s[i..] == s[i..i + n] + s[i + n..];
    }
  }

  /** check_format accepts exactly the formats of the language. */
  lemma AcceptedLanguage(s: string)
    ensures Accepted(s, 0) <==> exists ps :: AllWellFormed(ps) && SpellingOf(ps) == s
  {
    if Accepted(s, 0) {
      var ps := PartsOf(s, 0);
    }
    if ps :| AllWellFormed(ps) && SpellingOf(ps) == s {
      PartsAccepted(s, 0, ps);
    }
  }

  /**
    What is not of the language is dropped: a directive up to its letter, an escape with its letter, and one
    that is cut off by the end of the format altogether.
   */
  lemma PieceDropped(s: string, i: nat)
    requires i < |s| && CheckedPiece(s, i).None?
    ensures var k := if s[i] == '%' then ConversionAt(s, i + 1) else i + 1;
            Printed(s, i) == [Token(i, Nothing)] + if k < |s| then Printed(s, k + 1) else []
  {
    hide AcceptedConversion, AcceptedEscape, Selected, Unescaped, ConversionAt, PrintPercent;
    SamePiece(s, i);
    if s[i] == '%' {
      if i < |s| - 1 {
        CutOff(s, i + 1);
      } else {
        AtEnd(s, i + 1);
      }
    }
  }

  lemma CutOff(s: string, k: nat)
    requires 0 < k < |s|
    ensures PrintPercent(s, k).1 == if ConversionAt(s, k) < |s| then ConversionAt(s, k) else |s| - 1
  {
    SameConversion(s, k);
    if ConversionAt(s, k) == |s| {
      hide Selected, Number, IsDigit, StopAtLast, PastDigits;
      var b := WidthAt(s, k);
      StopIsPast(s, b);
      var e := StopAtLast(s, b);
      NoConversions();
      if e < |s| - 1 {
        StopIsPast(s, e + 1);
      }
      if k < |s| - 1 {
        SameDigits(s, k);
      } else {
        LastFlag(s, k);
      }
    }
  }
}
