/**
 * Slice-data addresses in raw NAL bits (RbspToRawBitOffset of
 * parse/h265/nal.cc) and their exactness for accepted slice headers.
 */
module RawOffsets {
  import opened Wrappers
  import opened Bits
  import opened Emulation
  import opened AnnexB
  import opened SliceHeaders

  /** The payload behind the two header bytes. */
  function Payload(nal: Nal): seq<Byte>
    requires |nal.raw| >= 2
  {
    nal.raw[2..]
  }

  /** Header bits, then the RBSP offset, then the emulation bytes dropped before its byte. */
  function RawBits(nal: Nal, rbspBitOffset: nat): nat
    requires |nal.raw| >= 2
  {
    16 + rbspBitOffset + 8 * Dropped(0, Payload(nal), rbspBitOffset / 8)
  }

  lemma DroppedStep(zeros: nat, s: seq<Byte>, i: nat, n: nat)
    requires i < |s| && n > 0
    ensures Dropped(zeros, s[i..], n)
      == if IsEmulation(zeros, s[i..]) then 1 + Dropped(0, s[i + 1..], n)
         else Dropped(NextZeros(zeros, s[i]), s[i + 1..], n - 1)
  {
    assert s[i..][1..] == s[i + 1..];
  }

  lemma DroppedNothing(zeros: nat, s: seq<Byte>, n: nat)
    requires n == 0 || s == []
    ensures Dropped(zeros, s, n) == 0
  {
  }

  /** The bit offset in the raw unit, cut to 32 bits; none when it lies outside. */
  method RbspToRawBitOffset(nal: Nal, rbspBitOffset: nat) returns (r: Option<nat>)
    requires rbspBitOffset < 0x1_0000_0000
    ensures r.Some? <==>
      |nal.raw| >= 2 && rbspBitOffset / 8 <= |nal.rbsp| && RawBits(nal, rbspBitOffset) <= 8 * |nal.raw|
    ensures r.Some? ==> r.value == RawBits(nal, rbspBitOffset) % 0x1_0000_0000
  {
    hide Dropped;
    if |nal.raw| < 2 {
      return None;
    }
    var rbspByte := rbspBitOffset / 8;
    if rbspByte > |nal.rbsp| {
      return None;
    }
    var payload := nal.raw[2..];
    var epb: nat, zeros: nat, i: nat, kept: nat := 0, 0, 0, 0;
    assert payload[0..] == payload;
    while i < |payload| && kept < rbspByte
      invariant i <= |payload| && kept <= rbspByte
      invariant epb + Dropped(zeros, payload[i..], rbspByte - kept) == Dropped(0, payload, rbspByte)
      decreases |payload| - i
    {
      DroppedStep(zeros, payload, i, rbspByte - kept);
      var b := payload[i];
      if zeros >= 2 && b == 3 && (i + 1 >= |payload| || payload[i + 1] <= 3) {
        epb := epb + 1;
        zeros := 0;
      } else {
        kept := kept + 1;
        zeros := if b == 0 then zeros + 1 else 0;
      }
      i := i + 1;
    }
    DroppedNothing(zeros, payload[i..], rbspByte - kept);
    var rawBits := 16 + rbspBitOffset + 8 * epb;
    if rawBits > 8 * |nal.raw| {
      return None;
    }
    return Some(rawBits % 0x1_0000_0000);
  }

  /** The raw address of RBSP byte `n`, 0-based from the start of the unit. */
  ghost predicate AddressOf(nal: Nal, address: nat, n: nat)
    requires |nal.raw| >= 2 && n <= |nal.rbsp|
  {
    && 2 <= address <= |nal.raw|
    && Strip(0, nal.raw[address..]) == nal.rbsp[n..]
    && (address < |nal.raw| <==> n < |nal.rbsp|)
    && (address < |nal.raw| ==> nal.raw[address] == nal.rbsp[n])
  }

  /** `bits` is where the slice data of an accepted header starts in the raw unit. */
  ghost predicate SliceDataAt(nal: Nal, sh: SliceHeader, bits: nat)
    requires |nal.raw| >= 2
  {
    var n := sh.dataBitOffset / 8;
    && 0 <= n <= |nal.rbsp|
    && bits <= 8 * |nal.raw| && bits % 8 == 0
    && AddressOf(nal, bits / 8, n)
    && bits / 8 - (2 + n) == Dropped(0, Payload(nal), n)
  }

  /**
   * The slice-data address is exact: for a unit read from a stream and an
   * accepted header of an independent slice segment, the conversion succeeds,
   * is byte-aligned, points at the raw byte that holds the first byte of
   * slice data (or at the end of the unit), the raw bytes from there strip to
   * the rest of the RBSP, and the gap to the RBSP address counts exactly the
   * emulation bytes in the header.
   */
  lemma SliceDataAddressExact(nal: Nal, sh: SliceHeader, ctx: SliceContext)
    requires HasHeader(nal.raw) && nal == NalOf(nal.raw)
    requires ctx.Valid() && ValidHeader(sh, nal.nalType, ctx, nal.rbsp)
    ensures SliceDataAt(nal, sh, RawBits(nal, sh.dataBitOffset))
  {
    hide Strip, Dropped, NalOf, Consumed;
    RbspOfNal(nal);
    var payload, n := Payload(nal), sh.dataBitOffset / 8;
    AddressExact(payload, n);
    var c := Consumed(0, payload, n);
    assert nal.raw[2 + c..] == payload[c..];
  }

  lemma RbspOfNal(nal: Nal)
    requires HasHeader(nal.raw) && nal == NalOf(nal.raw)
    ensures nal.rbsp == Strip(0, nal.raw[2..])
  {
  }

  lemma OffsetInside(nal: Nal, sh: SliceHeader, ctx: SliceContext)
    requires ctx.Valid() && ValidHeader(sh, nal.nalType, ctx, nal.rbsp)
    ensures 0 <= sh.dataBitOffset && sh.dataBitOffset / 8 <= |nal.rbsp|
  {
    hide ValidReferences, ValidActive;
  }

  /** Slice data has one address only. */
  lemma OneAddress(nal: Nal, sh: SliceHeader, ctx: SliceContext, bits: nat)
    requires |nal.raw| >= 2 && ctx.Valid() && ValidHeader(sh, nal.nalType, ctx, nal.rbsp)
    requires sh.dataBitOffset >= 0 && SliceDataAt(nal, sh, bits)
    ensures bits == RawBits(nal, sh.dataBitOffset) <= 8 * |nal.raw|
  {
    hide ValidReferences, ValidActive, Dropped, AddressOf;
  }

  /**
   * Parse and address one slice as the engines do, with the header's offset cut
   * to the 32 bits it is kept in: the address is right if and only if it fits
   * those 32 bits, as it does in every unit below 2^29 bytes.
   */
  method LocateSliceData(nal: Nal, ctx: SliceContext) returns (r: Option<nat>, header: Option<SliceHeader>)
    requires HasHeader(nal.raw) && nal == NalOf(nal.raw)
    requires ctx.Valid()
    ensures header == HeaderOf(ctx, nal.nalType, BitsOf(nal.rbsp))
    ensures header.Some? && !header.value.dependent ==>
      && header.value.dataBitOffset >= 0
      && RawBits(nal, header.value.dataBitOffset) <= 8 * |nal.raw|
      && (r.Some? && SliceDataAt(nal, header.value, r.value)
          <==> RawBits(nal, header.value.dataBitOffset) < 0x1_0000_0000)
  {
    hide Strip, Dropped, NalOf, ValidHeader, SliceDataAt, HeaderOf, BitsOf, Payload, RawBits;
    header := ParseSliceHeader(nal.rbsp, nal.nalType, ctx);
    r := None;
    if header.Some? && !header.value.dependent {
      var sh := header.value;
      OffsetInside(nal, sh, ctx);
      SliceDataAddressExact(nal, sh, ctx);
      OneAddress(nal, sh, ctx, RawBits(nal, sh.dataBitOffset));
      RawBitsBeyond(nal, sh.dataBitOffset);
      r := RbspToRawBitOffset(nal, sh.dataBitOffset % 0x1_0000_0000);
      if r.Some? && SliceDataAt(nal, sh, r.value) {
        OneAddress(nal, sh, ctx, r.value);
      }
    }
  }

  lemma RawBitsBeyond(nal: Nal, rbspBitOffset: nat)
    requires |nal.raw| >= 2
    ensures RawBits(nal, rbspBitOffset) > rbspBitOffset
  {
  }
}
