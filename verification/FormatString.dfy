/**
  The output format of mosquitto_sub: check_format accepts or refuses a format once, formatted_print
  goes through it for every message. What is printed is modelled as the items that reach stdout.
 */
module FormatString {
  import opened Bytes

  predicate IsDigit(c: char) {
    '0' <= c <= '9'
  }

  /** What a directive prints. */
  datatype Content =
    | PercentSign | TopicAlias | ContentType | CorrelationData | ExpiryInterval | PayloadFormat | DateTime
    | JsonEscaped | JsonPayload | PayloadLength | MessageId | UserProperties | Payload | Qos | ResponseTopic
    | Retain | SubscriptionId | Topic | UnixTime | LowerHex | UpperHex

  /** One thing printed: a character, a directive, a time field, an escaped character, or nothing at all. */
  datatype Item =
    | Literal(c: char)
    | Directive(content: Content, left: bool, zero: bool, width: nat, precision: int)
    | Time(c: char)
    | Escaped(c: char)
    | Nothing

  datatype Token = Token(start: nat, item: Item)

  // ---- the printer ----

  /** The cases of formatted_print_percent. */
  function Selected(c: char): Option<Content> {
    match c
    case '%' => Some(PercentSign)
    case 'A' => Some(TopicAlias)
    case 'C' => Some(ContentType)
    case 'D' => Some(CorrelationData)
    case 'E' => Some(ExpiryInterval)
    case 'F' => Some(PayloadFormat)
    case 'I' => Some(DateTime)
    case 'j' => Some(JsonEscaped)
    case 'J' => Some(JsonPayload)
    case 'l' => Some(PayloadLength)
    case 'm' => Some(MessageId)
    case 'P' => Some(UserProperties)
    case 'p' => Some(Payload)
    case 'q' => Some(Qos)
    case 'R' => Some(ResponseTopic)
    case 'r' => Some(Retain)
    case 'S' => Some(SubscriptionId)
    case 't' => Some(Topic)
    case 'U' => Some(UnixTime)
    case 'x' => Some(LowerHex)
    case 'X' => Some(UpperHex)
    case _ => None
  }

  /** The escapes of formatted_print and the characters they print. */
  function Unescaped(c: char): Option<char> {
    match c
    case '\\' => Some('\\')
    case '0' => Some('\0')
    case 'a' => Some('\U{7}')
    case 'e' => Some('\U{1B}')
    case 'n' => Some('\n')
    case 'r' => Some('\r')
    case 't' => Some('\t')
    case 'v' => Some('\U{B}')
    case _ => None
  }

  /** The directive with its fields, or nothing if the conversion has no case. */
  function Filled(c: char, left: bool, zero: bool, width: nat, precision: int): Item {
    match Selected(c)
    case Some(content) => Directive(content, left, zero, width, precision)
    case None => Nothing
  }

  function EscapeItem(c: char): Item {
    match Unescaped(c)
    case Some(out) => Escaped(out)
    case None => Nothing
  }

  /** From `k`, past the digits, but never past the last character. */
  function StopAtLast(s: string, k: nat): (r: nat)
    requires k < |s|
    ensures k <= r < |s|
    decreases |s| - k
  {
    if k < |s| - 1 && IsDigit(s[k]) then StopAtLast(s, k + 1) else k
  }

  function Number(s: string): nat {
    if s == "" then 0 else Number(s[..|s| - 1]) * 10 + if IsDigit(s[|s| - 1]) then (s[|s| - 1] - '0') as nat else 0
  }

  /** The directive whose '%' stands before `k`: what is printed, and where its conversion stands. */
  function PrintPercent(s: string, k: nat): (r: (Item, nat))
    requires 0 < k < |s|
    ensures k <= r.1 < |s|
  {
    var left := s[k] == '-';
    var a := if left && k < |s| - 1 then k + 1 else k;
    var zero := s[a] == '0';
    var b := if zero && a < |s| - 1 then a + 1 else a;
    var e := StopAtLast(s, b);
    var width := Number(s[b..e]);
    if s[e] == '.' && e < |s| - 1 then
      var f := StopAtLast(s, e + 1);
      (Filled(s[f], left, zero, width, Number(s[e + 1..f])), f)
    else (Filled(s[e], left, zero, width, -1), e)
  }

  /** The piece of the format at `i`: what is printed for it, and where the next piece starts. */
  function Piece(s: string, i: nat): (r: (Item, nat))
    requires i < |s|
    ensures i < r.1 <= |s|
  {
    if s[i] == '%' then
      if i < |s| - 1 then
        var p := PrintPercent(s, i + 1);
        (p.0, p.1 + 1)
      else (Nothing, i + 1)
    else if s[i] == '@' then
      if i < |s| - 1 then (if s[i + 1] == '@' then Literal('@') else Time(s[i + 1]), i + 2) else (Nothing, i + 1)
    else if s[i] == '\\' then
      if i < |s| - 1 then (EscapeItem(s[i + 1]), i + 2) else (Nothing, i + 1)
    else (Literal(s[i]), i + 1)
  }

  /** What formatted_print does with the rest of the format from `i` on. */
  function Printed(s: string, i: nat): seq<Token>
    requires i <= |s|
    decreases |s| - i
  {
    if i == |s| then [] else [Token(i, Piece(s, i).0)] + Printed(s, Piece(s, i).1)
  }

  // ---- check_format ----

  /** The conversions of the chain of comparisons in check_format. */
  predicate AcceptedConversion(c: char) {
    c in "%ACDEFIlmPpqRSrtjJUxX"
  }

  /** The escapes of the switch in check_format. */
  predicate AcceptedEscape(c: char) {
    c in "\\0aenrtv"
  }

  /** From `k`, past all digits. */
  function PastDigits(s: string, k: nat): (r: nat)
    requires k <= |s|
    ensures k <= r <= |s| && (r < |s| ==> !IsDigit(s[r])) && forall j :: k <= j < r ==> IsDigit(s[j])
    decreases |s| - k
  {
    if k < |s| && IsDigit(s[k]) then PastDigits(s, k + 1) else k
  }

  /** Where the conversion of the directive stands whose '%' stands before `k`; the end if it is incomplete. */
  function ConversionAt(s: string, k: nat): (r: nat)
    requires k <= |s|
    ensures k <= r <= |s|
  {
    var a := if k < |s| && (s[k] == '0' || s[k] == '-') then k + 1 else k;
    var e := PastDigits(s, a);
    if e < |s| && s[e] == '.' then PastDigits(s, e + 1) else e
  }

  /** The piece of the format at `i` is in order: where the next one starts. */
  function CheckedPiece(s: string, i: nat): (r: Option<nat>)
    requires i < |s|
    ensures r.Some? ==> i < r.value <= |s|
  {
    if s[i] == '%' then
      var k := ConversionAt(s, i + 1);
      if k < |s| && AcceptedConversion(s[k]) then Some(k + 1) else None
    else if s[i] == '@' then
      if i + 1 < |s| then Some(i + 2) else None
    else if s[i] == '\\' then
      if i + 1 < |s| && AcceptedEscape(s[i + 1]) then Some(i + 2) else None
    else Some(i + 1)
  }

  /** check_format accepts the rest of the format from `i` on. */
  predicate Accepted(s: string, i: nat)
    requires i <= |s|
    decreases |s| - i
  {
    i < |s| ==> CheckedPiece(s, i).Some? && Accepted(s, CheckedPiece(s, i).value)
  }

  /** Where the pieces start that check_format goes through. */
  function Starts(s: string, i: nat): seq<nat>
    requires i <= |s| && Accepted(s, i)
    decreases |s| - i
  {
    if i == |s| then [] else [i] + Starts(s, CheckedPiece(s, i).value)
  }

  // ---- agreement ----

  /** check_format accepts exactly the conversions for which the printer has a case. */
  lemma ConversionsAgree(c: char)
    ensures AcceptedConversion(c) <==> Selected(c).Some?
  {}

  /** check_format accepts exactly the escapes for which the printer has a case. */
  lemma EscapesAgree(c: char)
    ensures AcceptedEscape(c) <==> Unescaped(c).Some?
  {}

  /** No two conversions print the same thing, and no two escapes the same character. */
  lemma CasesDiffer(c: char, d: char)
    ensures Selected(c).Some? && Selected(c) == Selected(d) ==> c == d
    ensures Unescaped(c).Some? && Unescaped(c) == Unescaped(d) ==> c == d
  {}

  lemma {:induction false} StopIsPast(s: string, k: nat)
    requires k < |s|
    ensures PastDigits(s, k) < |s| ==> StopAtLast(s, k) == PastDigits(s, k)
    ensures PastDigits(s, k) == |s| ==> StopAtLast(s, k) == |s| - 1 && IsDigit(s[|s| - 1])
    decreases |s| - k
  {
    if k == |s| - 1 || !IsDigit(s[k]) {
    } else {
      StopIsPast(s, k + 1);
    }
  }

  /** Where the width starts for the printer, after its optional '-' and '0'. */
  function WidthAt(s: string, k: nat): (b: nat)
    requires k < |s|
    ensures k <= b < |s|
  {
    var a := if s[k] == '-' && k < |s| - 1 then k + 1 else k;
    if s[a] == '0' && a < |s| - 1 then a + 1 else a
  }

  /** Skipping one flag or two makes no difference to where the digits end. */
  lemma SameDigits(s: string, k: nat)
    requires k < |s| - 1
    ensures var a := if s[k] == '0' || s[k] == '-' then k + 1 else k;
            PastDigits(s, WidthAt(s, k)) == PastDigits(s, a)
  {}

  /** The last character of a directive that check_format calls incomplete is no conversion. */
  lemma SameConversion(s: string, k: nat)
    requires 0 < k < |s|
    ensures ConversionAt(s, k) < |s| ==> PrintPercent(s, k).1 == ConversionAt(s, k)
    ensures ConversionAt(s, k) == |s| ==> Selected(s[PrintPercent(s, k).1]).None?
  {
    hide Selected, Number, IsDigit, StopAtLast, PastDigits;
    var b := WidthAt(s, k);
    StopIsPast(s, b);
    var e := StopAtLast(s, b);
    NoConversions();
    if e < |s| - 1 {
      StopIsPast(s, e + 1);
    }
    if k < |s| - 1 {
      SameDigits(s, k);
    } else {
      LastFlag(s, k);
    }
  }

  lemma NoConversions()
    ensures Selected('-').None? && Selected('.').None? && forall c :: IsDigit(c) ==> Selected(c).None?
  {}

  lemma LastFlag(s: string, k: nat)
    requires k == |s| - 1
    ensures PastDigits(s, k) == (if IsDigit(s[k]) then |s| else k) && PastDigits(s, |s|) == |s|
    ensures WidthAt(s, k) == k && StopAtLast(s, k) == k && !IsDigit('-') && IsDigit('0')
  {}

  /** Nothing is dropped: every piece of the format is printed as something. */
  ghost predicate AllPrinted(ts: seq<Token>) {
    forall t :: t in ts ==> t.item != Nothing
  }

  function StartsOf(ts: seq<Token>): seq<nat> {
    if ts == [] then [] else [ts[0].start] + StartsOf(ts[1..])
  }

  /**
    check_format accepts a format if and only if formatted_print drops nothing of it, and then both cut
    it at the same places.
   */
  lemma {:induction false} ScannersAgree(s: string, i: nat)
    requires i <= |s|
    ensures Accepted(s, i) <==> AllPrinted(Printed(s, i))
    ensures Accepted(s, i) ==> StartsOf(Printed(s, i)) == Starts(s, i)
    decreases |s| - i
  {
    hide Piece, CheckedPiece, AllPrinted, StartsOf;
    if i == |s| {
      NonePrinted();
    } else {
      SamePiece(s, i);
      HeadAndRest(Token(i, Piece(s, i).0), Printed(s, Piece(s, i).1));
      ScannersAgree(s, Piece(s, i).1);
    }
  }

  /** A piece is in order if and only if something is printed for it, and then it ends at the same place. */
  lemma SamePiece(s: string, i: nat)
    requires i < |s|
    ensures CheckedPiece(s, i).Some? <==> Piece(s, i).0 != Nothing
    ensures CheckedPiece(s, i).Some? ==> CheckedPiece(s, i).value == Piece(s, i).1
  {
    hide AcceptedConversion, AcceptedEscape, Selected, Unescaped, ConversionAt, PrintPercent;
    if s[i] == '%' {
      if i < |s| - 1 {
        SameConversion(s, i + 1);
        PercentItem(s, i + 1);
        ConversionsAgree(s[PrintPercent(s, i + 1).1]);
      } else {
        AtEnd(s, i + 1);
      }
    } else if s[i] == '\\' && i < |s| - 1 {
      EscapesAgree(s[i + 1]);
    }
  }

  lemma NonePrinted()
    ensures AllPrinted([]) && StartsOf([]) == []
  {}

  lemma AtEnd(s: string, k: nat)
    requires k == |s|
    ensures ConversionAt(s, k) == |s|
  {}

  lemma PercentItem(s: string, k: nat)
    requires 0 < k < |s|
    ensures PrintPercent(s, k).0 == Nothing <==> Selected(s[PrintPercent(s, k).1]).None?
  {
    hide Selected, StopAtLast, Number;
  }

  lemma HeadAndRest(t: Token, ts: seq<Token>)
    ensures AllPrinted([t] + ts) <==> t.item != Nothing && AllPrinted(ts)
    ensures StartsOf([t] + ts) == [t.start] + StartsOf(ts)
  {
    assert ([t] + ts)[1..] == ts;
    assert forall u :: u in [t] + ts <==> u == t || u in ts;
  }

  // ---- what a directive says ----

  /**
    In an accepted directive, the width is the number that the digits after the flag spell, and the
    precision the number after the dot, or -1 without a dot; the conversion is the last character. A zero
    pads when it stands first or right behind the '-'.
   */
  lemma DirectiveFields(s: string, k: nat)
    requires 0 < k < |s| && ConversionAt(s, k) < |s| && AcceptedConversion(s[ConversionAt(s, k)])
    ensures var a := if s[k] == '0' || s[k] == '-' then k + 1 else k;
            var e := PastDigits(s, a);
            var p := PrintPercent(s, k);
            && e < |s| && p.0.Directive? && Selected(s[ConversionAt(s, k)]) == Some(p.0.content)
            && p.0.left == (s[k] == '-') && (p.0.zero <==> s[k] == '0' || (s[k] == '-' && k + 1 < |s| && s[k + 1] == '0'))
            && p.0.width == Number(s[a..e])
            && p.0.precision == if s[e] == '.' then Number(s[e + 1..PastDigits(s, e + 1)]) else -1
  {
    hide AcceptedConversion, Selected, Number, StopAtLast, PastDigits, PrintPercent, WidthAt, ConversionAt;
    SameConversion(s, k);
    ConversionsAgree(s[ConversionAt(s, k)]);
    PrintFields(s, k);
    WidthPart(s, k);
    var e := StopAtLast(s, WidthAt(s, k));
    if e < |s| - 1 {
      StopIsPast(s, e + 1);
    }
  }

  /** In a complete directive, the width ends at the same place for both, and spells the same number. */
  lemma WidthPart(s: string, k: nat)
    requires 0 < k < |s| && ConversionAt(s, k) < |s|
    ensures var a := if s[k] == '0' || s[k] == '-' then k + 1 else k;
            var e := PastDigits(s, a);
            && e < |s| && StopAtLast(s, WidthAt(s, k)) == e && Number(s[a..e]) == Number(s[WidthAt(s, k)..e])
            && ConversionAt(s, k) == (if s[e] == '.' then PastDigits(s, e + 1) else e)
            && (s[e] == '.' ==> e < |s| - 1)
  {
    hide Number, StopAtLast, PastDigits, WidthAt, IsDigit;
    StopIsPast(s, WidthAt(s, k));
    if k < |s| - 1 {
      SameDigits(s, k);
      LeadingZero(s, k, StopAtLast(s, WidthAt(s, k)));
    } else {
      LastFlag(s, k);
    }
  }

  /** The fields of the directive in the printer's own terms. */
  lemma PrintFields(s: string, k: nat)
    requires 0 < k < |s| && Selected(s[PrintPercent(s, k).1]).Some?
    ensures var b := WidthAt(s, k);
            var e := StopAtLast(s, b);
            var p := PrintPercent(s, k);
            && p.0.Directive? && Selected(s[p.1]) == Some(p.0.content) && p.0.left == (s[k] == '-') && p.0.width == Number(s[b..e])
            && (p.0.zero <==> s[k] == '0' || (s[k] == '-' && k + 1 < |s| && s[k + 1] == '0'))
            && (if s[e] == '.' && e < |s| - 1 then p.0.precision == Number(s[e + 1..p.1]) && p.1 == StopAtLast(s, e + 1)
                else p.0.precision == -1 && p.1 == e)
  {
    hide Selected, Number, StopAtLast;
  }

  /** The zero that the printer takes for padding does not change the number. */
  lemma LeadingZero(s: string, k: nat, e: nat)
    requires k < |s| - 1 && WidthAt(s, k) <= e <= |s|
    ensures var a := if s[k] == '0' || s[k] == '-' then k + 1 else k;
            a <= e && Number(s[a..e]) == Number(s[WidthAt(s, k)..e])
  {
    var a := if s[k] == '0' || s[k] == '-' then k + 1 else k;
    var b := WidthAt(s, k);
    if a != b {
      assert s[a..e] == "0" + s[b..e];
      NumberZero(s[b..e]);
    }
  }

  lemma {:induction false} NumberZero(t: string)
    ensures Number("0" + t) == Number(t)
    decreases |t|
  {
    var u := "0" + t;
    if t == "" {
      assert u[..0] == "";
    } else {
      assert u[..|u| - 1] == "0" + t[..|t| - 1];
      NumberZero(t[..|t| - 1]);
    }
  }

  // ---- the methods ----

  /** check_format: 0 when the format is accepted. */
  method CheckFormat(str: string) returns (rc: int)
    ensures rc == if Accepted(str, 0) then 0 else 1
  {
    hide CheckedPiece;
    var i := 0;
    while i < |str|
      invariant 0 <= i <= |str| && (Accepted(str, i) <==> Accepted(str, 0))
    {
      var ok;
      ok, i := CheckPiece(str, i);
      if !ok {
        return 1;
      }
      i := i + 1;
    }
    return 0;
  }

  /** The body of the loop: refuses the piece, or moves to its last character. */
  method CheckPiece(str: string, i0: nat) returns (ok: bool, i: nat)
    requires i0 < |str|
    ensures ok == CheckedPiece(str, i0).Some? && (ok ==> CheckedPiece(str, i0) == Some(i + 1))
  {
    hide AcceptedConversion, AcceptedEscape, ConversionAt;
    var len := |str|;
    i := i0;
    if str[i] == '%' {
      if i == len - 1 {
        AtEnd(str, i + 1);
        return false, i;
      }
      var at := CheckPercent(str, i);
      if at == len {
        return false, i;
      }
      if !AcceptedConversion(str[at]) {
        return false, i;
      }
      i := at;
    } else if str[i] == '@' {
      if i == len - 1 {
        return false, i;
      }
      i := i + 1;
    } else if str[i] == '\\' {
      if i == len - 1 {
        return false, i;
      }
      if !AcceptedEscape(str[i + 1]) {
        return false, i;
      }
      i := i + 1;
    }
    ok := true;
  }

  /** The directive after the '%' at `i0`: where its conversion stands, or the length if it is incomplete. */
  method CheckPercent(str: string, i0: nat) returns (at: nat)
    requires i0 < |str| - 1
    ensures at == ConversionAt(str, i0 + 1)
  {
    var len, i := |str|, i0;
    if str[i + 1] == '0' || str[i + 1] == '-' {
      i := i + 1;
      if i == len - 1 {
        return len;
      }
    }
    i := CheckDigits(str, i);
    if i == len - 1 {
      return len;
    }
    if str[i + 1] == '.' {
      i := i + 1;
      if i == len - 1 {
        return len;
      }
      i := CheckDigits(str, i);
      if i == len - 1 {
        return len;
      }
    }
    return i + 1;
  }

  /** Steps over digits behind `i0`, and stops at the last character. */
  method CheckDigits(str: string, i0: nat) returns (i: nat)
    requires i0 < |str| - 1
    ensures i + 1 == PastDigits(str, i0 + 1)
  {
    i := i0;
    while IsDigit(str[i + 1])
      invariant i0 <= i < |str| - 1 && PastDigits(str, i + 1) == PastDigits(str, i0 + 1)
      decreases |str| - i
    {
      i := i + 1;
      if i == |str| - 1 {
        return;
      }
    }
  }

  /** formatted_print: the pieces in order. */
  method FormattedPrint(fmt: string) returns (out: seq<Token>)
    ensures out == Printed(fmt, 0)
  {
    hide Piece;
    out := [];
    var i := 0;
    while i < |fmt|
      invariant 0 <= i <= |fmt| && out + Printed(fmt, i) == Printed(fmt, 0)
    {
      var item, last := PrintPiece(fmt, i);
      assert out + ([Token(i, item)] + Printed(fmt, last + 1)) == out + [Token(i, item)] + Printed(fmt, last + 1);
      out := out + [Token(i, item)];
      i := last + 1;
    }
  }

  /** The body of the loop: what is printed, and the last character of the piece. */
  method PrintPiece(fmt: string, i0: nat) returns (item: Item, i: nat)
    requires i0 < |fmt|
    ensures (item, i + 1) == Piece(fmt, i0)
  {
    hide PrintPercent, EscapeItem;
    var len := |fmt|;
    i, item := i0, Nothing;
    if fmt[i] == '%' {
      if i < len - 1 {
        i := i + 1;
        item, i := PercentLoop(fmt, i);
      }
    } else if fmt[i] == '@' {
      if i < len - 1 {
        i := i + 1;
        item := if fmt[i] == '@' then Literal('@') else Time(fmt[i]);
      }
    } else if fmt[i] == '\\' {
      if i < len - 1 {
        i := i + 1;
        item := EscapeItem(fmt[i]);
      }
    } else {
      item := Literal(fmt[i]);
    }
  }

  /** Alignment, padding, width and precision of one directive, and its conversion. */
  method PercentLoop(fmt: string, k: nat) returns (item: Item, i: nat)
    requires 0 < k < |fmt|
    ensures (item, i) == PrintPercent(fmt, k)
  {
    hide Filled, Number;
    var len := |fmt|;
    i := k;
    var align, pad := false, false;
    var precision: int := -1;
    if fmt[i] == '-' {
      align := true;
      if i < len - 1 {
        i := i + 1;
      }
    }
    if fmt[i] == '0' {
      pad := true;
      if i < len - 1 {
        i := i + 1;
      }
    }
    var fieldWidth;
    fieldWidth, i := NumberLoop(fmt, i);
    if fmt[i] == '.' {
      if i < len - 1 {
        i := i + 1;
        precision, i := NumberLoop(fmt, i);
      }
    }
    item := Filled(fmt[i], align, pad, fieldWidth, precision);
  }

  method NumberLoop(fmt: string, k: nat) returns (n: nat, i: nat)
    requires k < |fmt|
    ensures i == StopAtLast(fmt, k) && n == Number(fmt[k..i])
  {
    i, n := k, 0;
    while i < |fmt| - 1 && IsDigit(fmt[i])
      invariant k <= i < |fmt| && StopAtLast(fmt, i) == StopAtLast(fmt, k) && n == Number(fmt[k..i])
    {
      assert fmt[k..i + 1][..i - k] == fmt[k..i];
      n := n * 10 + (fmt[i] - '0') as nat;
      i := i + 1;
    }
  }
}
