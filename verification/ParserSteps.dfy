/** Single steps of the parser, given what it finds, and how the steps of a list decide together. */
module ParserSteps {
  import opened Bytes
  import opened Decimals
  import opened JsonText
  import opened JsonParser
  import opened JsonSyntax

  /** The byte at `p` cannot continue a number. */
  predicate NumberStops(c: bytes, p: nat) {
    p < |c| ==> !IsNumberByte(c[p])
  }

  lemma NumberEndAt(c: bytes, o: nat, e: nat)
    requires o <= e <= |c| && (forall k :: o <= k < e ==> IsNumberByte(c[k])) && NumberStops(c, e)
    ensures NumberEnd(c, o) == e
  {}

  lemma BlankEndAt(c: bytes, o: nat, e: nat)
    requires o <= e < |c| && (forall k :: o <= k < e ==> c[k] <= 32) && c[e] > 32
    ensures BlankEnd(c, o) == e && SkipBlanks(c, o) == e
  {}

  /** Text behind `o` that begins with `blanks` blanks and then `t`, whose first byte is no blank. */
  lemma SkipTo(c: bytes, o: nat, blank: bytes, t: bytes)
    requires At(c, o, blank + t) && t != [] && t[0] > 32
    requires Blanks(false, blank)
    ensures SkipBlanks(c, o) == o + |blank| && At(c, o + |blank|, t)
  {
    AtConcat(c, o, blank, t);
    AtIndex(c, o + |blank|, t, 0);
    forall k | o <= k < o + |blank| ensures c[k] <= 32 {
      AtIndex(c, o, blank, k - o);
    }
    BlankEndAt(c, o, o + |blank|);
  }

  /** An opening or separating byte, blanks, and then `rest`, whose first byte is no blank. */
  lemma SkipBehind(c: bytes, o: nat, first: byte, gap: bytes, rest: bytes)
    requires At(c, o, [first] + (gap + rest)) && rest != [] && rest[0] > 32 && Blanks(false, gap)
    ensures var p := o + 1 + |gap|;
            p < |c| && c[o] == first && SkipBlanks(c, o + 1) == p && At(c, p, rest) && c[p] == rest[0]
  {
    hide At;
    AtConcat(c, o, [first], gap + rest);
    AtIndex(c, o, [first], 0);
    SkipTo(c, o + 1, gap, rest);
    AtIndex(c, o + 1 + |gap|, rest, 0);
  }

  // ---- one step of the parser, given what it finds ----

  /** The three words exclude each other, and any other first byte excludes them all. */
  lemma ValueStep(c: bytes, o: nat, depth: nat)
    requires o < |c|
    ensures At(c, o, TEXT_NULL) ==> ParseValue(c, o, depth) == Ok(Null, o + 4)
    ensures At(c, o, TEXT_FALSE) ==> ParseValue(c, o, depth) == Ok(Bool(false), o + 5)
    ensures At(c, o, TEXT_TRUE) ==> ParseValue(c, o, depth) == Ok(Bool(true), o + 4)
    ensures c[o] == QUOTE ==>
              match ParseString(c, o)
              case Ok(s, p) => ParseValue(c, o, depth) == Ok(String(s), p)
              case Err(p) => ParseValue(c, o, depth) == Err(p)
    ensures c[o] == MINUS || IsDigit(c[o]) ==> ParseValue(c, o, depth) == ParseNumber(c, o)
    ensures c[o] == LBRACKET ==> ParseValue(c, o, depth) == ParseArray(c, o, depth)
    ensures c[o] == LBRACE ==> ParseValue(c, o, depth) == ParseObject(c, o, depth)
  {
    hide At, ParseNumber, ParseString, ParseArray, ParseObject;
    if At(c, o, TEXT_NULL) { AtIndex(c, o, TEXT_NULL, 0); }
    if At(c, o, TEXT_TRUE) { AtIndex(c, o, TEXT_TRUE, 0); }
    if At(c, o, TEXT_FALSE) { AtIndex(c, o, TEXT_FALSE, 0); }
  }

  lemma ArrayStep(c: bytes, o: nat, p: nat, depth: nat)
    requires o < p < |c| && SkipBlanks(c, o + 1) == p
    ensures ParseArray(c, o, depth) ==
            if depth >= NESTING_LIMIT then Err(o)
            else if c[p] == RBRACKET then Ok(Array([]), p + 1)
            else match ParseElems(c, p, depth + 1)
                 case Ok(es, q) => Ok(Array(es), q)
                 case Err(q) => Err(q)
  {}

  lemma ElemsStep(c: bytes, o: nat, p: nat, depth: nat, v: Json, e: nat, q: nat)
    requires o <= p <= |c| && SkipBlanks(c, o) == p && e <= |c| && SkipBlanks(c, e) == q < |c|
    ensures var r := ParseValue(c, p, depth);
            && (r.Err? ==> ParseElems(c, o, depth).Err?)
            && (r == Ok(v, e) && c[q] == RBRACKET ==> ParseElems(c, o, depth) == Ok([v], q + 1))
            && (r == Ok(v, e) && c[q] == COMMA ==>
                  match ParseElems(c, q + 1, depth)
                  case Ok(vs, end) => ParseElems(c, o, depth) == Ok([v] + vs, end)
                  case Err(end) => ParseElems(c, o, depth) == Err(end))
  {
    hide At, ParseValue, BlankEnd, SkipBlanks;
  }

  lemma ObjectStep(c: bytes, o: nat, p: nat, depth: nat)
    requires o < p < |c| && SkipBlanks(c, o + 1) == p
    ensures ParseObject(c, o, depth) ==
            if depth >= NESTING_LIMIT then Err(o)
            else if c[p] == RBRACE then Ok(Object([]), p + 1)
            else match ParseMembers(c, p, depth + 1)
                 case Ok(ms, q) => Ok(Object(ms), q)
                 case Err(q) => Err(q)
  {}

  lemma MembersStep(c: bytes, o: nat, depth: nat, m: Member, p: nat, q: nat)
    requires 0 < o < |c| && p <= |c| && SkipBlanks(c, p) == q < |c|
    ensures var r := ParseMember(c, o, depth);
            && (r.Err? ==> ParseMembers(c, o, depth).Err?)
            && (r == Ok(m, p) && c[q] == RBRACE ==> ParseMembers(c, o, depth) == Ok([m], q + 1))
            && (r == Ok(m, p) && c[q] == COMMA ==>
                  match ParseMembers(c, q + 1, depth)
                  case Ok(ms, e) => ParseMembers(c, o, depth) == Ok([m] + ms, e)
                  case Err(e) => ParseMembers(c, o, depth) == Err(e))
  {
    hide At, ParseMember, BlankEnd, SkipBlanks;
  }

  // ---- lists ----

  /** The text is read whole as `v`, unless it nests deeper than the parser allows: then it is refused. */
  ghost predicate Reads<T>(r: Parsed<T>, nesting: nat, v: T, end: nat) {
    if nesting <= NESTING_LIMIT then r == Ok(v, end) else r.Err?
  }

  /** A bracket around a list: refused at the limit, otherwise one level deeper. */
  lemma Wrapped<T>(r: Parsed<seq<T>>, whole: Parsed<Json>, depth: nat, n: nat, vs: seq<T>, v: Json, e: nat)
    requires depth < NESTING_LIMIT ==> Reads(r, depth + 1 + n, vs, e)
    requires depth >= NESTING_LIMIT ==> whole.Err?
    requires depth < NESTING_LIMIT && r == Ok(vs, e) ==> whole == Ok(v, e)
    requires depth < NESTING_LIMIT && r.Err? ==> whole.Err?
    ensures Reads(whole, depth + 1 + n, v, e)
  {}

  lemma WrappedEmpty(whole: Parsed<Json>, depth: nat, v: Json, e: nat)
    ensures (depth >= NESTING_LIMIT ==> whole.Err?) && (depth < NESTING_LIMIT ==> whole == Ok(v, e)) ==> Reads(whole, depth + 1, v, e)
  {}

  /** The last part of a list decides with its own nesting. */
  lemma JoinLast<T>(r: Parsed<T>, whole: Parsed<seq<T>>, nesting: nat, v: T, q: nat, e: nat)
    requires Reads(r, nesting, v, q) && (r == Ok(v, q) ==> whole == Ok([v], e)) && (r.Err? ==> whole.Err?)
    ensures Reads(whole, nesting, [v], e)
  {}

  /** A part and the rest of a list decide together, with the deeper nesting of the two. */
  lemma Join<T>(r: Parsed<T>, rest: Parsed<seq<T>>, whole: Parsed<seq<T>>, depth: nat, n: nat, m: nat, v: T, vs: seq<T>, q: nat, e: nat)
    requires Reads(r, depth + n, v, q) && Reads(rest, depth + m, vs, e)
    requires r == Ok(v, q) ==> whole == if rest.Ok? then Ok([v] + rest.value, rest.offset) else Err(rest.offset)
    requires r.Err? ==> whole.Err?
    ensures Reads(whole, depth + Max(n, m), [v] + vs, e)
  {}
}
