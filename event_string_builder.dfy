/**
 * EventStringBuilder: renders an event, and its self-parent and other-parent, as a short
 * text "(creator,generation,hash)" accumulated in a buffer that each append extends.
 *
 * A builder made from missing data holds the matching error text and ignores every
 * append. Java's CommonUtils.hex and the constants EventImpl.NO_EVENT_ID and
 * EventImpl.NO_EVENT_GEN come from outside this class; they are the fields of a Format
 * value the rendering is given.
 */
module EventStringBuilder {
  import opened Wrappers
  import opened JavaInts

  /** How many leading bytes of a hash are written. */
  const NUM_BYTES_HASH: nat := 4

  /** The bytes of a hash. */
  type Hash = seq<bv8>

  /**
   * What the rendering takes from outside: the creator id and generation that mark an
   * absent event, and the hex rendering of the first n bytes of a byte string.
   */
  datatype Format = Format(noEventId: Long, noEventGen: Long, hex: (Hash, nat) -> string)

  /** The fields of BaseEventHashedData that the builder reads. */
  datatype HashedData = HashedData(
    creatorId: Long,
    generation: Long,
    hash: Option<Hash>,
    selfParentGen: Long,
    selfParentHash: Option<Hash>,
    otherParentGen: Long,
    otherParentHash: Option<Hash>)

  /** The field of BaseEventUnhashedData that the builder reads. */
  datatype UnhashedData = UnhashedData(otherId: Long)

  /** An EventImpl, or a ValidateEventTask: each carries both data parts, which may be null. */
  datatype Event = Event(hashedData: Option<HashedData>, unhashedData: Option<UnhashedData>)

  /** Which of the three public appends is made. */
  datatype Part = EventPart | SelfParentPart | OtherParentPart

  /** The text of one decimal digit. */
  function DigitChar(d: nat): (c: char)
    requires d < 10
    ensures '0' <= c <= '9'
  {
    ('0' as int + d) as char
  }

  /** The value of one decimal digit character. */
  function DigitValue(c: char): nat
    requires '0' <= c <= '9'
  {
    (c as int - '0' as int) as nat
  }

  predicate IsDigits(s: string) {
    forall i :: 0 <= i < |s| ==> '0' <= s[i] <= '9'
  }

  /** The decimal digits of a natural number, most significant first, without leading zeros. */
  function NatToString(n: nat): (s: string)
    ensures 0 < |s| && IsDigits(s)
    ensures |s| > 1 ==> s[0] != '0'
  {
    if n < 10 then [DigitChar(n)] else NatToString(n / 10) + [DigitChar(n % 10)]
  }

  /** The value of a string of decimal digits. */
  function ParseNat(s: string): nat
    requires IsDigits(s)
  {
    if |s| == 0 then 0 else 10 * ParseNat(s[..|s| - 1]) + DigitValue(s[|s| - 1])
  }

  /** Long.toString / StringBuilder.append(long): an optional minus sign, then the digits. */
  function LongToString(n: Long): (s: string)
    ensures 0 < |s|
    ensures ',' !in s
  {
    if n < 0 then "-" + NatToString(-(n as int)) else NatToString(n)
  }

  /** Reading a decimal text back: the inverse of LongToString. */
  function ParseLong(s: string): Option<int> {
    if 0 < |s| && s[0] == '-' && IsDigits(s[1..]) && 1 < |s| then Some(-(ParseNat(s[1..]) as int))
    else if 0 < |s| && IsDigits(s) then Some(ParseNat(s))
    else None
  }

  /** Reading digits with one more digit at the end: ten times the value, plus the digit. */
  lemma ParseNatSnoc(t: string, c: char)
    requires IsDigits(t) && '0' <= c <= '9'
    ensures IsDigits(t + [c])
    ensures ParseNat(t + [c]) == 10 * ParseNat(t) + DigitValue(c)
  {
    assert (t + [c])[..|t|] == t;
  }

  /** The digits of n read back give n. */
  lemma {:induction false} NatRoundTrip(n: nat)
    ensures ParseNat(NatToString(n)) == n
  {
    if n >= 10 {
      ParseNatSnoc(NatToString(n / 10), DigitChar(n % 10));
      NatRoundTrip(n / 10);
    }
  }

  /** A minus sign before non-empty digits reads back as the negated value. */
  lemma ParseNegative(d: string)
    requires 0 < |d| && IsDigits(d)
    ensures ParseLong("-" + d) == Some(-(ParseNat(d) as int))
  {
    assert ("-" + d)[1..] == d;
  }

  /** Non-empty digits read back as their value. */
  lemma ParseDigits(d: string)
    requires 0 < |d| && IsDigits(d)
    ensures ParseLong(d) == Some(ParseNat(d))
  {
    assert '0' <= d[0] <= '9';
  }

  /** The text of a negative long read back gives the long. */
  lemma NegativeRoundTrip(n: Long)
    requires n < 0
    ensures ParseLong(LongToString(n)) == Some(n as int)
  {
    var m: nat := -(n as int);
    var d := NatToString(m);
    assert LongToString(n) == "-" + d;
    ParseNegative(d);
    NatRoundTrip(m);
  }

  /** The text of a non-negative long read back gives the long. */
  lemma NonNegativeRoundTrip(n: Long)
    requires 0 <= n
    ensures ParseLong(LongToString(n)) == Some(n as int)
  {
    ParseDigits(NatToString(n as int));
    NatRoundTrip(n as int);
  }

  /** The decimal text of a long read back gives the long. */
  lemma LongRoundTrip(n: Long)
    ensures ParseLong(LongToString(n)) == Some(n as int)
  {
    if n < 0 {
      NegativeRoundTrip(n);
    } else {
      NonNegativeRoundTrip(n);
    }
  }

  /** appendHash: "null" for a missing hash, otherwise the hex of its first four bytes. */
  function HashText(f: Format, hash: Option<Hash>): (r: string)
    ensures hash.None? ==> r == "null"
    ensures hash.Some? ==> r == f.hex(hash.value, NUM_BYTES_HASH)
  {
    match hash
    case None => "null"
    case Some(h) => f.hex(h, NUM_BYTES_HASH)
  }

  /** The body of a rendered event: "creator,generation,hash)". */
  function Fields(f: Format, creatorId: Long, generation: Long, hash: Option<Hash>): string {
    LongToString(creatorId) + "," + LongToString(generation) + "," + HashText(f, hash) + ")"
  }

  /** An event that is absent: the absent creator id, the absent generation and no hash. */
  predicate IsNoEvent(f: Format, creatorId: Long, generation: Long, hash: Option<Hash>) {
    creatorId == f.noEventId && generation == f.noEventGen && hash.None?
  }

  lemma Associative(a: string, b: string, c: string)
    ensures a + (b + c) == (a + b) + c
  {
  }

  /** The marker before the fields of an event whose creator id alone says it is absent. */
  function Marker(f: Format, creatorId: Long): string {
    if creatorId == f.noEventId then "MALFORMED " else ""
  }

  /**
   * appendShortEvent: "(none)" for an absent event; "(MALFORMED " and the fields when
   * only the creator id marks it absent; "(" and the fields otherwise.
   */
  function ShortEvent(f: Format, creatorId: Long, generation: Long, hash: Option<Hash>): string {
    "(" +
    if IsNoEvent(f, creatorId, generation, hash) then "none)"
    else Marker(f, creatorId) + Fields(f, creatorId, generation, hash)
  }

  /** The position of the first comma in a text, or its length when there is none. */
  function CommaIndex(s: string): (k: nat)
    ensures k <= |s|
    ensures k < |s| ==> s[k] == ','
    ensures ',' !in s[..k]
  {
    if |s| == 0 then 0
    else if s[0] == ',' then 0
    else
      var k := CommaIndex(s[1..]);
      assert s[..k + 1] == [s[0]] + s[1..][..k];
      k + 1
  }

  /** A comma placed after a comma-free text is the first comma. */
  lemma CommaAfter(c: string, rest: string)
    requires ',' !in c
    ensures CommaIndex(c + "," + rest) == |c|
  {
    var s := c + "," + rest;
    var k := CommaIndex(s);
    assert s[|c|] == ',';
    assert s[..|c|] == c;
  }

  /** Reading "creator,generation," back from the start of a text. */
  function ParseCreatorAndGeneration(s: string): Option<(int, int)> {
    var i := CommaIndex(s);
    if i == |s| then None
    else
      var rest := s[i + 1..];
      var j := CommaIndex(rest);
      if j == |rest| then None
      else
        match (ParseLong(s[..i]), ParseLong(rest[..j]))
        case (Some(c), Some(g)) => Some((c, g))
        case _ => None
  }

  /** Two comma-free texts, each followed by a comma, read back as the pair of their values. */
  lemma ParsePair(c: string, g: string, tail: string)
    requires ',' !in c && ',' !in g
    requires ParseLong(c).Some? && ParseLong(g).Some?
    ensures ParseCreatorAndGeneration(c + "," + (g + "," + tail)) == Some((ParseLong(c).value, ParseLong(g).value))
  {
    var rest := g + "," + tail;
    var s := c + "," + rest;
    CommaAfter(c, rest);
    assert s[..|c|] == c && s[|c| + 1..] == rest;
    CommaAfter(g, tail);
    assert rest[..|g|] == g;
  }

  /** The fields, regrouped as the creator, a comma and the rest. */
  lemma FieldsShape(c: string, g: string, h: string)
    ensures c + "," + g + "," + h + ")" == c + "," + (g + "," + (h + ")"))
  {
  }

  /** The fields start with the creator id and the generation, which read back exactly. */
  lemma FieldsRoundTrip(f: Format, creatorId: Long, generation: Long, hash: Option<Hash>)
    ensures ParseCreatorAndGeneration(Fields(f, creatorId, generation, hash))
              == Some((creatorId as int, generation as int))
  {
    var c, g, h := LongToString(creatorId), LongToString(generation), HashText(f, hash);
    FieldsShape(c, g, h);
    LongRoundTrip(creatorId);
    LongRoundTrip(generation);
    ParsePair(c, g, h + ")");
  }

  /** A rendered event is "(none)" exactly when the event is absent. */
  lemma NoneExactlyWhenAbsent(f: Format, creatorId: Long, generation: Long, hash: Option<Hash>)
    ensures ShortEvent(f, creatorId, generation, hash) == "(none)" <==> IsNoEvent(f, creatorId, generation, hash)
  {
    var r := ShortEvent(f, creatorId, generation, hash);
    if !IsNoEvent(f, creatorId, generation, hash) {
      if creatorId == f.noEventId {
        assert r[1] == 'M';
      } else {
        var c := LongToString(creatorId);
        assert r[1] == c[0];
        if creatorId < 0 {
          assert c[0] == '-';
        } else {
          assert '0' <= NatToString(creatorId)[0] <= '9';
        }
      }
    }
  }

  /**
   * A rendered event that is not absent carries its creator id and generation, behind
   * "(MALFORMED " when the creator id alone says absent and behind "(" otherwise.
   */
  lemma ShortEventCarriesFields(f: Format, creatorId: Long, generation: Long, hash: Option<Hash>)
    requires !IsNoEvent(f, creatorId, generation, hash)
    ensures var prefix := "(" + Marker(f, creatorId);
            var r := ShortEvent(f, creatorId, generation, hash);
            |prefix| < |r| && r[..|prefix|] == prefix && r[|r| - 1] == ')' &&
            ParseCreatorAndGeneration(r[|prefix|..]) == Some((creatorId as int, generation as int))
  {
    var prefix := "(" + Marker(f, creatorId);
    var fields := Fields(f, creatorId, generation, hash);
    var r := ShortEvent(f, creatorId, generation, hash);
    assert r == "(" + (Marker(f, creatorId) + fields);
    Associative("(", Marker(f, creatorId), fields);
    assert fields[|fields| - 1] == ')';
    assert r[..|prefix|] == prefix && r[|prefix|..] == fields;
    FieldsRoundTrip(f, creatorId, generation, hash);
  }

  /** isNull: either data part is missing. */
  predicate IsNull(hashedData: Option<HashedData>, unhashedData: Option<UnhashedData>) {
    hashedData.None? || unhashedData.None?
  }

  /**
   * builder(hashedData, unhashedData): the text a builder starts with; hashed data is
   * checked first.
   */
  function InitialText(hashedData: Option<HashedData>, unhashedData: Option<UnhashedData>): (r: string)
    ensures r == "" <==> !IsNull(hashedData, unhashedData)
    ensures hashedData.None? ==> r == "(HashedData=null)"
    ensures hashedData.Some? && unhashedData.None? ==> r == "(UnhashedData=null)"
  {
    if hashedData.None? then "(HashedData=null)"
    else if unhashedData.None? then "(UnhashedData=null)"
    else ""
  }

  /** builder(EventImpl) and builder(ValidateEventTask): the text for a null argument. */
  function EventInitialText(nullText: string, event: Option<Event>): (r: string)
    ensures event.None? ==> r == nullText
    ensures event.Some? ==> r == InitialText(event.value.hashedData, event.value.unhashedData)
  {
    match event
    case None => nullText
    case Some(e) => InitialText(e.hashedData, e.unhashedData)
  }

  /**
   * What appendEvent, appendSelfParent or appendOtherParent adds: nothing for a builder
   * with missing data, otherwise " sp" or " op" for a parent and the short event.
   */
  function PartText(f: Format, hashedData: Option<HashedData>, unhashedData: Option<UnhashedData>, part: Part): string {
    if IsNull(hashedData, unhashedData) then ""
    else
      var h, u := hashedData.value, unhashedData.value;
      match part
      case EventPart => ShortEvent(f, h.creatorId, h.generation, h.hash)
      case SelfParentPart => " sp" + ShortEvent(f, h.creatorId, h.selfParentGen, h.selfParentHash)
      case OtherParentPart => " op" + ShortEvent(f, u.otherId, h.otherParentGen, h.otherParentHash)
  }

  /** The text a builder holds after a series of appends, in call order. */
  function Text(f: Format, hashedData: Option<HashedData>, unhashedData: Option<UnhashedData>, parts: seq<Part>): string {
    if |parts| == 0 then InitialText(hashedData, unhashedData)
    else Text(f, hashedData, unhashedData, parts[..|parts| - 1]) + PartText(f, hashedData, unhashedData, parts[|parts| - 1])
  }

  /** An append adds text exactly when both data parts are present. */
  lemma AppendAddsTextIffComplete(f: Format, hashedData: Option<HashedData>, unhashedData: Option<UnhashedData>, part: Part)
    ensures PartText(f, hashedData, unhashedData, part) == "" <==> IsNull(hashedData, unhashedData)
  {
  }

  /** A builder made from missing data holds its error text whatever is appended. */
  lemma {:induction false} NullBuilderKeepsErrorText(f: Format, hashedData: Option<HashedData>, unhashedData: Option<UnhashedData>, parts: seq<Part>)
    requires IsNull(hashedData, unhashedData)
    ensures Text(f, hashedData, unhashedData, parts) == InitialText(hashedData, unhashedData)
  {
    if |parts| > 0 {
      NullBuilderKeepsErrorText(f, hashedData, unhashedData, parts[..|parts| - 1]);
    }
  }

  /** Every text a builder holds starts with the text it was made with. */
  lemma {:induction false} TextStartsWithInitial(f: Format, hashedData: Option<HashedData>, unhashedData: Option<UnhashedData>, parts: seq<Part>)
    ensures var t := Text(f, hashedData, unhashedData, parts);
            var init := InitialText(hashedData, unhashedData);
            |init| <= |t| && t[..|init|] == init
  {
    if |parts| > 0 {
      TextStartsWithInitial(f, hashedData, unhashedData, parts[..|parts| - 1]);
    }
  }

  class Builder {
    /** The StringBuilder sb. */
    var sb: string
    const hashedData: Option<HashedData>
    const unhashedData: Option<UnhashedData>

    /** The private constructor from data parts: an empty buffer. */
    constructor FromData(hashedData: Option<HashedData>, unhashedData: Option<UnhashedData>)
      ensures this.hashedData == hashedData && this.unhashedData == unhashedData
      ensures sb == ""
    {
      this.hashedData := hashedData;
      this.unhashedData := unhashedData;
      sb := "";
    }

    /** The private constructor from an error text: no data, the text in the buffer. */
    constructor FromError(errorString: string)
      ensures hashedData.None? && unhashedData.None?
      ensures sb == errorString
    {
      hashedData := None;
      unhashedData := None;
      sb := errorString;
    }

    /** appendHash. */
    method AppendHash(f: Format, hash: Option<Hash>)
      modifies this
      ensures sb == old(sb) + HashText(f, hash)
    {
      if hash.None? {
        sb := sb + "null";
      } else {
        sb := sb + f.hex(hash.value, NUM_BYTES_HASH);
      }
    }

    /** appendShortEvent. */
    method AppendShortEvent(f: Format, creatorId: Long, generation: Long, hash: Option<Hash>)
      modifies this
      ensures sb == old(sb) + ShortEvent(f, creatorId, generation, hash)
    {
      ghost var start := sb;
      sb := sb + "(";
      if creatorId == f.noEventId {
        if generation == f.noEventGen && hash.None? {
          sb := sb + "none)";
          assert sb == start + ("(" + "none)");
          return;
        } else {
          sb := sb + "MALFORMED ";
        }
      }
      ghost var head := sb;
      assert head == start + "(" + Marker(f, creatorId);
      var numbers := LongToString(creatorId) + "," + LongToString(generation) + ",";
      sb := sb + numbers;
      AppendHash(f, hash);
      sb := sb + ")";
      ghost var fields := Fields(f, creatorId, generation, hash);
      assert fields == numbers + HashText(f, hash) + ")";
      Associative(head, numbers, HashText(f, hash));
      Associative(head, numbers + HashText(f, hash), ")");
      Associative(start + "(", Marker(f, creatorId), fields);
      Associative(start, "(", Marker(f, creatorId) + fields);
      assert !IsNoEvent(f, creatorId, generation, hash);
    }

    /** appendEvent: the event itself. */
    method AppendEvent(f: Format) returns (self: Builder)
      modifies this
      ensures self == this
      ensures sb == old(sb) + PartText(f, hashedData, unhashedData, EventPart)
    {
      self := this;
      if IsNull(hashedData, unhashedData) {
        return;
      }
      AppendShortEvent(f, hashedData.value.creatorId, hashedData.value.generation, hashedData.value.hash);
    }

    /** appendSelfParent: " sp" and the self-parent, which has the event's creator. */
    method AppendSelfParent(f: Format) returns (self: Builder)
      modifies this
      ensures self == this
      ensures sb == old(sb) + PartText(f, hashedData, unhashedData, SelfParentPart)
    {
      self := this;
      if IsNull(hashedData, unhashedData) {
        return;
      }
      ghost var start := sb;
      sb := sb + " sp";
      AppendShortEvent(f, hashedData.value.creatorId, hashedData.value.selfParentGen, hashedData.value.selfParentHash);
      Associative(start, " sp", ShortEvent(f, hashedData.value.creatorId, hashedData.value.selfParentGen, hashedData.value.selfParentHash));
      assert PartText(f, hashedData, unhashedData, SelfParentPart) == " sp" + ShortEvent(f, hashedData.value.creatorId, hashedData.value.selfParentGen, hashedData.value.selfParentHash);
    }

    /** appendOtherParent: " op" and the other-parent, whose creator is the unhashed otherId. */
    method AppendOtherParent(f: Format) returns (self: Builder)
      modifies this
      ensures self == this
      ensures sb == old(sb) + PartText(f, hashedData, unhashedData, OtherParentPart)
    {
      self := this;
      if IsNull(hashedData, unhashedData) {
        return;
      }
      ghost var start := sb;
      sb := sb + " op";
      AppendShortEvent(f, unhashedData.value.otherId, hashedData.value.otherParentGen, hashedData.value.otherParentHash);
      Associative(start, " op", ShortEvent(f, unhashedData.value.otherId, hashedData.value.otherParentGen, hashedData.value.otherParentHash));
      assert PartText(f, hashedData, unhashedData, OtherParentPart) == " op" + ShortEvent(f, unhashedData.value.otherId, hashedData.value.otherParentGen, hashedData.value.otherParentHash);
    }

    /** build: the accumulated text. */
    method Build() returns (r: string)
      ensures r == sb
    {
      r := sb;
    }
  }

  /** builder(hashedData, unhashedData). */
  method BuilderOf(hashedData: Option<HashedData>, unhashedData: Option<UnhashedData>) returns (b: Builder)
    ensures fresh(b)
    ensures b.hashedData.Some? <==> !IsNull(hashedData, unhashedData)
    ensures b.hashedData.Some? ==> b.hashedData == hashedData && b.unhashedData == unhashedData
    ensures IsNull(b.hashedData, b.unhashedData) == IsNull(hashedData, unhashedData)
    ensures b.sb == InitialText(hashedData, unhashedData)
  {
    if hashedData.None? {
      b := new Builder.FromError("(HashedData=null)");
      return;
    }
    if unhashedData.None? {
      b := new Builder.FromError("(UnhashedData=null)");
      return;
    }
    b := new Builder.FromData(hashedData, unhashedData);
  }

  /** builder(EventImpl). */
  method BuilderOfEvent(event: Option<Event>) returns (b: Builder)
    ensures fresh(b)
    ensures b.sb == EventInitialText("(EventImpl=null)", event)
    ensures event.Some? ==> IsNull(b.hashedData, b.unhashedData) == IsNull(event.value.hashedData, event.value.unhashedData)
    ensures event.None? ==> IsNull(b.hashedData, b.unhashedData)
  {
    if event.None? {
      b := new Builder.FromError("(EventImpl=null)");
      return;
    }
    b := BuilderOf(event.value.hashedData, event.value.unhashedData);
  }

  /** builder(ValidateEventTask). */
  method BuilderOfTask(task: Option<Event>) returns (b: Builder)
    ensures fresh(b)
    ensures b.sb == EventInitialText("(ValidateEventTask=null)", task)
    ensures task.Some? ==> IsNull(b.hashedData, b.unhashedData) == IsNull(task.value.hashedData, task.value.unhashedData)
    ensures task.None? ==> IsNull(b.hashedData, b.unhashedData)
  {
    if task.None? {
      b := new Builder.FromError("(ValidateEventTask=null)");
      return;
    }
    b := BuilderOf(task.value.hashedData, task.value.unhashedData);
  }
}
