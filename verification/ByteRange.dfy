/** Byte ranges (section 14.35 of RFC 2616): the header, its parser and the readers that serve it. */
module ByteRange {

  import opened ByteCodec
  import opened Numbers
  import opened FileSizes

  const HYPHEN: byte := '-' as byte
  const BYTES: bytes := ['b' as byte, 'y' as byte, 't' as byte, 'e' as byte, 's' as byte]
  const BYTES_EQUALS: bytes := BYTES + [EQUALS]

  datatype RangeError = UnsupportedUnits | MissingRange | MissingEnd | BadNumber(error: Error) | StartBeyondEnd | EndBeforeStart

  datatype Parsed = Range(start: int, end: int) | Failed(error: RangeError)

  /** The part after the equals sign. */
  function ParseSpec(b: bytes, length: int): Parsed {
    var n := First(b, HYPHEN);
    if n == |b| then Failed(MissingEnd)
    else if n == 0 then
      var v := ParseUint(b[1..]);
      if v.Err? then Failed(BadNumber(v.error))
      else Range(if length - v.value < 0 then 0 else length - v.value, length - 1)
    else
      var start := ParseUint(b[..n]);
      if start.Err? then Failed(BadNumber(start.error))
      else if start.value >= length then Failed(StartBeyondEnd)
      else if n + 1 == |b| then Range(start.value, length - 1)
      else
        var last := ParseUint(b[n + 1..]);
        if last.Err? then Failed(BadNumber(last.error))
        else
          var end := if last.value >= length then length - 1 else last.value;
          if end < start.value then Failed(EndBeforeStart) else Range(start.value, end)
  }

  function ParseByteRange(b: bytes, length: int): Parsed {
    if !(BYTES <= b) then Failed(UnsupportedUnits)
    else if |b| == 5 || b[5] != EQUALS then Failed(MissingRange)
    else ParseSpec(b[6..], length)
  }

  /** An accepted range lies within the content; only a suffix of zero bytes is empty. */
  lemma RangeWithin(b: bytes, length: nat)
    ensures var r := ParseByteRange(b, length);
      r.Range? ==> 0 <= r.start <= r.end + 1 <= length && (r.start > r.end ==> length == 0 || b[6] == HYPHEN)
  {
    if |b| > 6 {
      var s := b[6..];
      var n := First(s, HYPHEN);
      ParsedUint(s[..n]);
      if n < |s| { ParsedUint(s[n + 1..]); }
    }
  }

  /** The header value for a range; a negative start asks for a suffix, a negative end for the rest. */
  function RangeHeader(start: int, end: int): bytes
    requires -TWO_TO_63 <= start < TWO_TO_63 && -TWO_TO_63 <= end < TWO_TO_63
  {
    var last := if start >= 0 then end else Wrap64(-start);
    BYTES_EQUALS + (if start >= 0 then Decimal(start) else []) + [HYPHEN] + (if last >= 0 then Decimal(last) else [])
  }

  method SetByteRange(start: int, end: int) returns (b: bytes)
    requires -TWO_TO_63 <= start < TWO_TO_63 && -TWO_TO_63 <= end < TWO_TO_63
    ensures b == RangeHeader(start, end)
  {
    b := BYTES + [EQUALS];
    var last := end;
    if start >= 0 {
      var r := AppendUint(b, start);
      b := r.dst;
    } else {
      last := Wrap64(-start);
    }
    b := b + [HYPHEN];
    if last >= 0 {
      var r := AppendUint(b, last);
      b := r.dst;
    }
  }

  /** What a client that sets a range is served, for content of a given length. */
  function Clipped(start: int, end: int, length: int): Parsed {
    if start < 0 then Range(if length + start < 0 then 0 else length + start, length - 1)
    else if start >= length then Failed(StartBeyondEnd)
    else if end < 0 || end >= length then Range(start, length - 1)
    else if end < start then Failed(EndBeforeStart)
    else Range(start, end)
  }

  /**
   * Parsing undoes setting, up to clipping at the content length, for every pair of 64-bit integers but
   * one start: the smallest integer has no negation, and its header asks for nothing.
   */
  lemma RangeRoundTrip(start: int, end: int, length: nat)
    requires -TWO_TO_63 <= start < TWO_TO_63 && -TWO_TO_63 <= end < TWO_TO_63 && length < TWO_TO_63
    ensures ParseByteRange(RangeHeader(start, end), length) == Clipped(start, end, length) <==> start > -TWO_TO_63
    ensures start == -TWO_TO_63 ==> ParseByteRange(RangeHeader(start, end), length) == Failed(BadNumber(EmptyInt))
  {
    var b := RangeHeader(start, end);
    var spec := (if start >= 0 then Decimal(start) else []) + [HYPHEN];
    var last := if start >= 0 then end else Wrap64(-start);
    var tail := if last >= 0 then Decimal(last) else [];
    assert b == BYTES_EQUALS + (spec + tail);
    HeaderParts(spec + tail, length);
    if start >= 0 { UintRoundTrip(start); }
    if last >= 0 { UintRoundTrip(last); }
    SpecParts(if start >= 0 then Decimal(start) else [], tail);
    hide Decimal, First, Wrap64, ParseUint;
  }

  lemma HeaderParts(spec: bytes, length: int)
    ensures ParseByteRange(BYTES_EQUALS + spec, length) == ParseSpec(spec, length)
  {
    var b := BYTES_EQUALS + spec;
    assert b[..5] == BYTES && b[5] == EQUALS && b[6..] == spec;
    assert BYTES <= b;
    hide ParseSpec;
  }

  /** Digits contain no hyphen, so the first hyphen is the separator. */
  lemma SpecParts(digits: bytes, tail: bytes)
    requires forall i :: 0 <= i < |digits| ==> IsDigit(digits[i])
    ensures var b := digits + [HYPHEN] + tail;
      First(b, HYPHEN) == |digits| && b[..|digits|] == digits && b[|digits| + 1..] == tail
  {
    var b := digits + [HYPHEN] + tail;
    var n := First(b, HYPHEN);
    assert forall i :: 0 <= i < |digits| ==> b[i] == digits[i];
    assert b[|digits|] == HYPHEN;
    hide First;
  }

  /** A suffix of so many bytes, a start with an open end, and a start with an end. */
  ghost predicate AsksSuffix(spec: bytes, length: int, start: int, end: int) {
    && spec != [] && spec[0] == HYPHEN && ParseUint(spec[1..]).Ok?
    && end == length - 1 && start == if ParseUint(spec[1..]).value > length then 0 else length - ParseUint(spec[1..]).value
  }

  ghost predicate AsksFrom(spec: bytes, length: int, start: int, end: int, first: bytes) {
    first != [] && HYPHEN !in first && spec == first + [HYPHEN] && ParseUint(first) == Ok(start) && start < length && end == length - 1
  }

  ghost predicate AsksBetween(spec: bytes, length: int, start: int, end: int, first: bytes, last: bytes) {
    && first != [] && HYPHEN !in first && last != [] && spec == first + [HYPHEN] + last
    && ParseUint(first) == Ok(start) && start < length && ParseUint(last).Ok?
    && start <= end && end == if ParseUint(last).value < length then ParseUint(last).value else length - 1
  }

  ghost predicate Asks(spec: bytes, length: int, start: int, end: int) {
    || AsksSuffix(spec, length, start, end)
    || (exists first: bytes :: AsksFrom(spec, length, start, end, first))
    || (exists first: bytes, last: bytes :: AsksBetween(spec, length, start, end, first, last))
  }

  /** A header is accepted exactly when it asks for a range in one of the three ways; everything else is refused. */
  lemma AcceptedExactly(b: bytes, length: int, start: int, end: int)
    ensures ParseByteRange(b, length) == Range(start, end) <==> BYTES_EQUALS <= b && Asks(b[6..], length, start, end)
  {
    if BYTES_EQUALS <= b {
      assert b == BYTES_EQUALS + b[6..];
      HeaderParts(b[6..], length);
      SpecExactly(b[6..], length, start, end);
    }
  }

  lemma SpecExactly(spec: bytes, length: int, start: int, end: int)
    ensures ParseSpec(spec, length) == Range(start, end) <==> Asks(spec, length, start, end)
  {
    hide ParseUint, First;
    var n := First(spec, HYPHEN);
    if 0 < n < |spec| {
      var first, last := spec[..n], spec[n + 1..];
      assert spec == first + [HYPHEN] + last;
      if last == [] { assert spec == first + [HYPHEN]; }
      if ParseSpec(spec, length) == Range(start, end) {
        assert if last == [] then AsksFrom(spec, length, start, end, first) else AsksBetween(spec, length, start, end, first, last);
      }
    }
    if f: bytes :| AsksFrom(spec, length, start, end, f) { SpecCut(spec, f, []); }
    if f: bytes, l: bytes :| AsksBetween(spec, length, start, end, f, l) { SpecCut(spec, f, l); }
  }

  lemma SpecCut(spec: bytes, first: bytes, last: bytes)
    requires HYPHEN !in first && spec == first + [HYPHEN] + last
    ensures First(spec, HYPHEN) == |first| && spec[..|first|] == first && spec[|first| + 1..] == last
  {
    FirstIs(spec, HYPHEN, |first|);
  }

  // ---------- the reader of a small file ----------

  class SmallFileReader {
    const content: bytes
    var startPos: int
    var endPos: int

    ghost predicate Valid()
      reads this
    {
      0 <= startPos <= endPos <= |content|
    }

    constructor (content: bytes)
      ensures Valid() && this.content == content && startPos == 0 && endPos == |content|
    {
      this.content, startPos, endPos := content, 0, |content|;
    }

    /** An accepted range is one the reader can be set to. */
    method UpdateByteRange(start: int, end: int)
      requires 0 <= start <= end + 1 <= |content|
      modifies this
      ensures Valid() && startPos == start && endPos == end + 1
    {
      startPos, endPos := start, end + 1;
    }

    /** Fills a buffer of `size` bytes as far as the range goes. */
    method Read(size: nat) returns (chunk: bytes, eof: bool)
      requires Valid()
      modifies this
      ensures Valid() && endPos == old(endPos)
      ensures eof <==> old(startPos) == endPos
      ensures chunk + content[startPos..endPos] == content[old(startPos)..endPos]
      ensures |chunk| == if size < endPos - old(startPos) then size else endPos - old(startPos)
    {
      var tailLen := endPos - startPos;
      if tailLen <= 0 {
        return [], true;
      }
      var n := if size > tailLen then tailLen else size;
      chunk, eof := content[startPos..startPos + n], false;
      startPos := startPos + n;
    }

    /**
     * Reading with buffers of any sizes delivers a prefix of the range, and the whole range once the
     * end is reported or the buffers are large enough together.
     */
    method ReadAll(sizes: seq<nat>) returns (out: bytes, eof: bool)
      requires Valid()
      modifies this
      ensures Valid() && endPos == old(endPos)
      ensures out + content[startPos..endPos] == old(content[startPos..endPos])
      ensures eof ==> out == old(content[startPos..endPos])
      ensures Total(sizes) >= endPos - old(startPos) ==> out == old(content[startPos..endPos])
    {
      out, eof := [], false;
      var i := 0;
      assert sizes[..0] == [];
      while i < |sizes| && !eof
        invariant 0 <= i <= |sizes| && Valid() && endPos == old(endPos)
        invariant out + content[startPos..endPos] == old(content[startPos..endPos])
        invariant eof ==> startPos == endPos
        invariant startPos == endPos || |out| >= Total(sizes[..i])
        decreases |sizes| - i
      {
        var chunk;
        assert sizes[..i + 1][..i] == sizes[..i];
        chunk, eof := Read(sizes[i]);
        out := out + chunk;
        i := i + 1;
      }
      assert sizes[..|sizes|] == sizes;
    }
  }

  function Total(sizes: seq<nat>): nat { if sizes == [] then 0 else Total(sizes[..|sizes| - 1]) + sizes[|sizes| - 1] }

  lemma Joined(out: bytes, chunk: bytes, rest: bytes)
    ensures out + chunk + rest == out + (chunk + rest)
  {
  }

  // ---------- the reader of a big file ----------

  /** A descriptor with an offset, read as it is or through a limit on the bytes to come. */
  class BigFileReader {
    const content: bytes
    var offset: nat
    var limited: bool
    var left: int

    /** The bytes the reader has yet to deliver. */
    ghost function Rest(): bytes
      requires Valid()
      reads this
    {
      if limited then content[offset..offset + left] else content[offset..]
    }

    ghost predicate Valid()
      reads this
    {
      offset <= |content| && (limited ==> 0 <= left <= |content| - offset)
    }

    constructor (content: bytes)
      ensures Valid() && this.content == content && !limited && offset == 0 && Rest() == content
    {
      this.content, offset, limited, left := content, 0, false, 0;
    }

    /** Seeks to the start and limits the reader to the length of the range. */
    method UpdateByteRange(start: int, end: int)
      requires 0 <= start <= end + 1 <= |content|
      modifies this
      ensures Valid() && Rest() == content[start..end + 1]
    {
      offset, limited, left := start, true, end - start + 1;
    }

    /**
     * The descriptor may deliver fewer bytes than asked for, `got` of them, but at least one unless it is at
     * its end. Asked for nothing, it delivers nothing and does not report its end; a limit does.
     */
    method Read(size: nat, got: nat) returns (chunk: bytes, eof: bool)
      requires Valid()
      modifies this
      ensures Valid()
      ensures chunk + Rest() == old(Rest())
      ensures eof <==> old(Rest()) == [] && (old(limited) || size > 0)
      ensures limited == old(limited) && |chunk| <= size && (size > 0 && old(Rest()) != [] ==> chunk != [])
    {
      if limited && left <= 0 {
        return [], true;
      }
      var most := if limited && size > left then left else size;
      if |content| - offset < most { most := |content| - offset; }
      if offset == |content| {
        return [], size > 0;
      }
      var n := if got > most then most else if got == 0 && most > 0 then 1 else got;
      chunk, eof := content[offset..offset + n], false;
      offset := offset + n;
      if limited { left := left - n; }
    }

    /** Back to the start without a limit, for the next session. */
    method Rewind()
      modifies this
      ensures Valid() && Rest() == content
    {
      offset, limited, left := 0, false, 0;
    }

    /**
     * Reading with buffers of any sizes, whatever each read delivers, yields a prefix of what was left, and
     * all of it once the end is reported, at the latest after one buffer more than there are bytes.
     */
    method ReadAll(sizes: seq<nat>, got: nat -> nat) returns (out: bytes, eof: bool)
      requires Valid()
      modifies this
      ensures Valid() && out + Rest() == old(Rest())
      ensures eof ==> out == old(Rest())
      ensures Buffers(sizes) > |old(Rest())| ==> eof
    {
      hide Rest, Valid;
      out, eof := [], false;
      var i := 0;
      assert sizes[..0] == [];
      while i < |sizes| && !eof
        invariant 0 <= i <= |sizes| && Valid() && out + Rest() == old(Rest())
        invariant eof ==> Rest() == []
        invariant eof || |out| >= Buffers(sizes[..i])
        decreases |sizes| - i
      {
        var chunk;
        assert sizes[..i + 1][..i] == sizes[..i];
        chunk, eof := Read(sizes[i], got(i));
        Joined(out, chunk, Rest());
        out := out + chunk;
        i := i + 1;
      }
      assert sizes[..|sizes|] == sizes;
    }
  }

  /** The buffers that hold anything. */
  function Buffers(sizes: seq<nat>): nat {
    if sizes == [] then 0 else Buffers(sizes[..|sizes| - 1]) + if sizes[|sizes| - 1] > 0 then 1 else 0
  }

  /**
   * A request for a range of a file: either an error, or a reader of its kind that delivers bytes from the
   * start of the range on, and exactly the range when its end is reported or the buffers suffice, whatever
   * the buffers and the single reads are like.
   */
  method ServeRange(content: bytes, header: bytes, sizes: seq<nat>, got: nat -> nat) returns (r: Parsed, body: bytes, eof: bool)
    ensures r == ParseByteRange(header, |content|)
    ensures r.Range? ==> 0 <= r.start <= r.end + 1 <= |content| && body <= content[r.start..r.end + 1]
    ensures r.Range? && (eof || Buffers(sizes) > r.end - r.start + 1) ==> body == content[r.start..r.end + 1]
  {
    r, body, eof := ParseByteRange(header, |content|), [], false;
    RangeWithin(header, |content|);
    hide ParseByteRange, Buffers, Total;
    if r.Range? {
      body, eof := Deliver(content, r.start, r.end, sizes, got);
    }
  }

  /** The bytes of a range through the reader of the file's kind. */
  method Deliver(content: bytes, start: int, end: int, sizes: seq<nat>, got: nat -> nat) returns (body: bytes, eof: bool)
    requires 0 <= start <= end + 1 <= |content|
    ensures body <= content[start..end + 1]
    ensures eof || Buffers(sizes) > end - start + 1 ==> body == content[start..end + 1]
  {
    BuffersHold(sizes);
    hide Buffers, Total;
    if |content| > MAX_SMALL_FILE_SIZE {
      var reader := new BigFileReader(content);
      reader.UpdateByteRange(start, end);
      body, eof := reader.ReadAll(sizes, got);
    } else {
      var reader := new SmallFileReader(content);
      reader.UpdateByteRange(start, end);
      body, eof := reader.ReadAll(sizes);
    }
  }

  lemma {:induction false} BuffersHold(sizes: seq<nat>)
    ensures Buffers(sizes) <= Total(sizes)
  {
    if sizes != [] { BuffersHold(sizes[..|sizes| - 1]); }
  }
}
