/** The two callbacks that xer_decode_primitive sets around a body decoder, for INTEGER: which chunk of an element's
    content is its value. */
module XerPrimitive {
  import opened Text
  import opened Bytes
  import opened IntegerCodec
  import opened XerInteger
  import opened Enumerated

  /** What the tokenizer hands over between the opening and the closing tag: an unknown empty tag, or text, with
      whether something follows it. */
  datatype Chunk = Tag(text: string) | Text(text: string, haveMore: bool)

  /** A tag begins with its bracket. */
  predicate IsChunk(c: Chunk) { c.Tag? ==> c.text != "" && c.text[0] == '<' }

  /** What of a chunk reaches the body decoder. */
  function Handed(c: Chunk): string
  {
    match c
    case Tag(text) => text
    case Text(text, _) => text[Start(text)..]
  }

  predicate IsBlank(c: Chunk) { c.Text? && Start(c.text) == |c.text| }

  /** What the chunk means on its own. */
  ghost function Value(s: Specifics, c: Chunk): Outcome
    requires FitValues(s)
  {
    Meaning(Handed(c), TagValue(s, Handed(c)))
  }

  lemma {:induction false} SpaceEndStops(text: string, i: nat)
    requires i <= |text|
    ensures SpaceEnd(text, i) < |text| ==> !IsSpace(text[SpaceEnd(text, i)])
    decreases |text| - i
  {
    if i < |text| && IsSpace(text[i]) { SpaceEndStops(text, i + 1); }
  }

  /** The body decoder never sees leading white space; so a tag's look-up begins right behind its bracket. */
  lemma HandedIsCut(c: Chunk)
    requires IsChunk(c)
    ensures Start(Handed(c)) == 0
    ensures IsBlank(c) <==> Handed(c) == ""
  {
    if c.Text? { SpaceEndStops(c.text, 0); }
  }

  /** A tag is a value exactly when an element has its name. */
  lemma TagIsValueExactly(s: Specifics, text: string, i: nat)
    requires WellFormed(s) && FitValues(s) && text != "" && text[0] == '<' && NoNul(text)
    ensures Finds(s, text, i) <==> i < |s.value2enum| && TagName(text) == Some(s.value2enum[i].name)
    ensures Finds(s, text, i) ==> Value(s, Tag(text)) == Consumed(Encode64(s.value2enum[i].value))
    ensures (forall k: nat :: !Finds(s, text, k)) ==> Value(s, Tag(text)) == Broken
  {
    assert Start(text) == 0;
    if TagName(text).Some? { NameHasNoNul(text[1..]); }
    if Finds(s, text, i) {
      var k: nat :| Finds(s, text, k) && TagValue(s, text) == Some(s.value2enum[k].value);
      FindsOne(s, text, i, k);
    }
  }

  lemma {:induction false} NameHasNoNul(s: string)
    requires NoNul(s) && NameUpTo(s).Some?
    ensures NoNul(NameUpTo(s).value)
  {
    if !EndsTag(s[0]) { NameHasNoNul(s[1..]); }
  }

  // ----- a row of chunks -----

  datatype Progress = Nothing | Decoded(contents: seq<byte>) | Refused

  ghost function Fed(s: Specifics, p: Progress, c: Chunk): Progress
    requires FitValues(s)
  {
    match p
    case Refused => Refused
    case Decoded(_) => if IsBlank(c) then p else Refused
    case Nothing =>
      if c.Text? && !c.haveMore then Refused
      else
        match Value(s, c)
        case Consumed(contents) => Decoded(contents)
        case NotBody => Nothing
        case _ => Refused
  }

  ghost function FedAll(s: Specifics, chunks: seq<Chunk>): Progress
    requires FitValues(s)
  {
    if chunks == [] then Nothing else Fed(s, FedAll(s, chunks[..|chunks| - 1]), chunks[|chunks| - 1])
  }

  /** White space that is known to end. */
  predicate IsGap(c: Chunk) { IsBlank(c) && c.haveMore }

  /** Chunk k alone is a value, and all others are white space. */
  ghost predicate OnlyValue(s: Specifics, chunks: seq<Chunk>, k: nat, contents: seq<byte>)
    requires FitValues(s)
  {
    && k < |chunks| && Value(s, chunks[k]) == Consumed(contents) && (chunks[k].Text? ==> chunks[k].haveMore)
    && (forall i :: 0 <= i < k ==> IsGap(chunks[i]))
    && (forall i :: k < i < |chunks| ==> IsBlank(chunks[i]))
  }

  lemma BlankIsNotBody(s: Specifics, c: Chunk)
    requires FitValues(s) && IsChunk(c)
    ensures Value(s, c) == NotBody <==> IsBlank(c)
    ensures IsBlank(c) ==> c.Text?
  {
    HandedIsCut(c);
  }

  /** Content is accepted with a result exactly when one chunk is a value and everything else is white space: there is
      no second value, and nothing before the value may be left open. */
  lemma {:induction false} OneValueExactly(s: Specifics, chunks: seq<Chunk>, contents: seq<byte>)
    requires FitValues(s) && forall i :: 0 <= i < |chunks| ==> IsChunk(chunks[i])
    ensures FedAll(s, chunks) == Nothing <==> forall i :: 0 <= i < |chunks| ==> IsGap(chunks[i])
    ensures FedAll(s, chunks) == Decoded(contents) <==> exists k: nat :: OnlyValue(s, chunks, k, contents)
  {
    hide Value, IsBlank;
    if chunks != [] {
      var n := |chunks| - 1;
      var front, last := chunks[..n], chunks[n];
      OneValueExactly(s, front, contents);
      BlankIsNotBody(s, last);
      assert forall i :: 0 <= i < n ==> front[i] == chunks[i];
      assert (forall i :: 0 <= i < |chunks| ==> IsGap(chunks[i])) <==> (forall i :: 0 <= i < n ==> IsGap(front[i])) && IsGap(last);
      if FedAll(s, front) == Decoded(contents) && IsBlank(last) {
        var k: nat :| OnlyValue(s, front, k, contents);
        assert OnlyValue(s, chunks, k, contents);
      }
      if FedAll(s, front) == Nothing && FedAll(s, chunks) == Decoded(contents) {
        assert OnlyValue(s, chunks, n, contents);
      }
      if k: nat :| OnlyValue(s, chunks, k, contents) {
        if k < n {
          assert OnlyValue(s, front, k, contents);
        }
      }
    }
  }

  /** A printed tag between white space is read as its element's value. */
  lemma TagBetweenSpace(s: Specifics, i: nat, lead: string, trail: string)
    requires WellFormed(s) && FitValues(s) && i < |s.value2enum| && AllSpace(lead) && AllSpace(trail)
    ensures var chunks := [Text(lead, true), Tag("<" + s.value2enum[i].name + "/>"), Text(trail, true)];
            FedAll(s, chunks) == Decoded(Encode64(s.value2enum[i].value))
  {
    var tag := "<" + s.value2enum[i].name + "/>";
    var chunks := [Text(lead, true), Tag(tag), Text(trail, true)];
    TagRoundTrip(s, i);
    SpaceEndAt(lead, 0, |lead|);
    SpaceEndAt(trail, 0, |trail|);
    OneValueExactly(s, chunks, Encode64(s.value2enum[i].value));
    assert OnlyValue(s, chunks, 1, Encode64(s.value2enum[i].value));
  }

  // ----- the callbacks -----

  /** xer_whitespace_span */
  method WhitespaceSpan(text: string) returns (n: nat)
    ensures n == Start(text)
  {
    n := 0;
    while n < |text| && IsSpace(text[n])
      invariant 0 <= n <= |text| && SpaceEnd(text, n) == Start(text)
    {
      n := n + 1;
    }
  }

  /** struct xdp_arg_s, with the specifics of the type descriptor. */
  class Decoder {
    const st: Integer
    const specs: Specifics
    var decodedSomething: bool
    var wantMore: bool

    constructor (st: Integer, specs: Specifics)
      requires WellFormed(specs) && FitValues(specs)
      ensures Valid() && this.st == st && this.specs == specs && !decodedSomething && !wantMore
    {
      this.st, this.specs, decodedSomething, wantMore := st, specs, false, false;
    }

    predicate Valid() { WellFormed(specs) && FitValues(specs) }

    /** The progress that the fields stand for, while no callback has failed. */
    ghost function Progressed(): Progress
      reads this, st, st.buf
    {
      if !decodedSomething then Nothing else if st.Valid() then Decoded(st.Contents()) else Refused
    }

    /** xer_decode__unexpected_tag */
    method UnexpectedTag(chunk: string, littleEndian: bool) returns (r: int)
      requires Valid() && IsChunk(Tag(chunk)) && Progressed() != Refused
      modifies this, st
      ensures r == 0 || r == -1
      ensures r >= 0 ==> Progressed() != Refused
      ensures Fed(specs, old(Progressed()), Tag(chunk)) == if r < 0 then Refused else Progressed()
    {
      if decodedSomething { return -1; }
      assert Start(chunk) == 0;
      var bret := BodyDecodeNamed(st, specs, chunk, littleEndian);
      if bret == BODY_CONSUMED {
        decodedSomething := true;
        return 0;
      }
      if bret == NOT_BODY_IGNORE { return 0; }
      r := -1;
    }

    /** xer_decode__primitive_body; r is what is taken of the chunk. */
    method PrimitiveBody(chunk: string, haveMore: bool, littleEndian: bool) returns (r: int)
      requires Valid() && Progressed() != Refused && !DecimalOverrun(Handed(Text(chunk, haveMore)))
      modifies this, st
      ensures r == |chunk| || r == -1
      ensures r >= 0 ==> Progressed() != Refused
      ensures Fed(specs, old(Progressed()), Text(chunk, haveMore)) == if r < 0 then Refused else Progressed()
      ensures wantMore <==> old(wantMore) || (!old(decodedSomething) && !haveMore)
    {
      if decodedSomething {
        var span := WhitespaceSpan(chunk);
        return if span == |chunk| then |chunk| else -1;
      }
      if !haveMore {
        wantMore := true;
        return -1;
      }
      var leadWspSize := WhitespaceSpan(chunk);
      var body := chunk[leadWspSize..];
      var bret := BodyDecodeNamed(st, specs, body, littleEndian);
      if bret == BODY_CONSUMED {
        decodedSomething := true;
        return leadWspSize + |body|;
      }
      if bret == NOT_BODY_IGNORE { return leadWspSize + |body|; }
      r := -1;
    }

    /** The chunks of one element's content up to its closing tag, and the last chance of xer_decode_primitive, which
        an empty body does not take. */
    method Content(chunks: seq<Chunk>, littleEndian: bool) returns (ok: bool)
      requires Valid() && !decodedSomething
      requires forall i :: 0 <= i < |chunks| ==> IsChunk(chunks[i]) && !DecimalOverrun(Handed(chunks[i]))
      modifies this, st
      ensures ok <==> FedAll(specs, chunks).Decoded?
      ensures ok ==> st.Valid() && st.Contents() == FedAll(specs, chunks).contents
    {
      hide Fed;
      assert chunks[..0] == [];
      var i := 0;
      while i < |chunks|
        invariant 0 <= i <= |chunks| && Progressed() != Refused
        invariant Progressed() == FedAll(specs, chunks[..i])
      {
        assert chunks[..i + 1][..i] == chunks[..i];
        var r;
        match chunks[i] {
          case Tag(text) => r := UnexpectedTag(text, littleEndian);
          case Text(text, haveMore) => r := PrimitiveBody(text, haveMore, littleEndian);
        }
        i := i + 1;
        if r < 0 {
          RefusedStays(specs, chunks, i);
          return false;
        }
      }
      assert chunks[..i] == chunks;
      if !decodedSomething {
        assert Start("") == 0;
        var bret := BodyDecodeNamed(st, specs, "", littleEndian);
        return false;
      }
      ok := true;
    }
  }

  lemma {:induction false} RefusedStays(s: Specifics, chunks: seq<Chunk>, i: nat)
    requires FitValues(s) && i <= |chunks| && FedAll(s, chunks[..i]) == Refused
    ensures FedAll(s, chunks) == Refused
  {
    if i == |chunks| {
      assert chunks[..i] == chunks;
    } else {
      assert chunks[..|chunks| - 1][..i] == chunks[..i];
      RefusedStays(s, chunks[..|chunks| - 1], i);
    }
  }
}
