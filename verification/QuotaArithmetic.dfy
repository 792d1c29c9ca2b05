/** Byte caps in 64-bit arithmetic: a request in bytes or megabytes, the service default, and the
    headroom left for an upload. */
module QuotaArithmetic {
  import opened Options
  import opened Int64
  import opened Numerals

  datatype QuotaRequest = QuotaRequest(maxBytes: Option<int>, maxMb: Option<int>)
  datatype QuotaError = NotExactlyOne | NegativeBytes | NegativeMegabytes

  const BYTES_PER_MB := 1024 * 1024

  function MegabytesToBytes(mb: int): int { Wrap(Wrap(mb * 1024) * 1024) }

  function ResolveMax(req: QuotaRequest): Result<int, QuotaError> {
    if req.maxBytes.Some? && req.maxMb.Some? then Err(NotExactlyOne)
    else if req.maxBytes.Some? then
      if req.maxBytes.value < 0 then Err(NegativeBytes) else Ok(req.maxBytes.value)
    else if req.maxMb.Some? then
      if req.maxMb.value < 0 then Err(NegativeMegabytes) else Ok(MegabytesToBytes(req.maxMb.value))
    else Err(NotExactlyOne)
  }

  /** A megabyte count is the exact non-negative byte cap exactly below 2^43. */
  lemma MegabytesExactly(mb: int)
    requires 0 <= mb
    ensures MegabytesToBytes(mb) == Wrap(mb * 1_048_576)
    ensures MegabytesToBytes(mb) == mb * 1_048_576 <==> mb < 0x800_0000_0000
    ensures mb < 0x800_0000_0000 ==> 0 <= MegabytesToBytes(mb)
  {
    WrapTimes(mb * 1024, 1024);
    assert mb * 1024 * 1024 == mb * BYTES_PER_MB;
  }

  /** A request is accepted exactly when it names one unit with a non-negative amount, and then below
      2^43 megabytes the cap is the amount asked for. */
  lemma ResolveMaxExactly(req: QuotaRequest)
    ensures ResolveMax(req).Ok? <==>
      || (req.maxBytes.Some? && req.maxMb.None? && req.maxBytes.value >= 0)
      || (req.maxMb.Some? && req.maxBytes.None? && req.maxMb.value >= 0)
    ensures ResolveMax(req).Ok? && req.maxMb.Some? ==>
      (&& ResolveMax(req).value == Wrap(req.maxMb.value * 1_048_576)
       && (ResolveMax(req).value == req.maxMb.value * 1_048_576 <==> req.maxMb.value < 0x800_0000_0000))
    ensures ResolveMax(req).Ok? && req.maxBytes.Some? ==> ResolveMax(req).value == req.maxBytes.value
  {
    if req.maxMb.Some? && req.maxMb.value >= 0 { MegabytesExactly(req.maxMb.value); }
  }

  const DEFAULT_QUOTA_MB := 5120

  /** The cap of a user without an override; `setting` is the environment value, "" when unset. */
  method DefaultQuotaBytes(setting: string) returns (bytes: int)
    ensures var n := ParseInt(setting);
      var mb := if n.Some? && n.value >= 0 then n.value else 5120;
      bytes == Wrap(mb * 1_048_576) && (bytes == mb * 1_048_576 <==> mb < 0x800_0000_0000)
    ensures setting == "" ==> bytes == 5_368_709_120
  {
    var mb: int := DEFAULT_QUOTA_MB;
    if setting != "" {
      var n := ParseInt(setting);
      if n.Some? && n.value >= 0 {
        mb := n.value;
      }
    }
    MegabytesExactly(mb);
    bytes := Wrap(Wrap(mb * 1024) * 1024);
  }

  /** Because the usage includes the size being replaced, the headroom neither overflows nor exceeds
      the cap. */
  lemma HeadroomExact(maxBytes: int, used: int, prevSize: int)
    requires 0 <= maxBytes <= MAX_INT64 && 0 <= prevSize <= used <= MAX_INT64
    ensures Wrap(maxBytes - Wrap(used - prevSize)) == maxBytes - (used - prevSize) <= maxBytes
  {
  }

  /** When the two are read at different moments the replaced size may exceed the usage, and the
      headroom exceeds the cap by the difference; it stays exact up to the 64-bit limit. */
  lemma HeadroomAcrossReads(maxBytes: int, used: int, prevSize: int)
    requires 0 <= maxBytes <= MAX_INT64 && 0 <= used < prevSize <= MAX_INT64
    ensures Wrap(maxBytes - Wrap(used - prevSize)) > maxBytes <==> maxBytes + (prevSize - used) <= MAX_INT64
  {
    var h := maxBytes - (used - prevSize);
    if h > MAX_INT64 { WrapUnique(h, h - TWO_64, 1); }
  }

  /** A cap that wrapped to a negative number, as 2^43 megabytes or more can, lets uploads in exactly when
      subtracting what the user keeps passes below the 64-bit range. */
  lemma NegativeCapAdmits(maxBytes: int, used: int, prevSize: int)
    requires MIN_INT64 <= maxBytes < 0 && 0 <= prevSize <= used <= MAX_INT64
    ensures Wrap(maxBytes - Wrap(used - prevSize)) > 0 <==> maxBytes - (used - prevSize) < MIN_INT64
  {
    var d := maxBytes - (used - prevSize);
    if d < MIN_INT64 { WrapUnique(d, d + TWO_64, -1); }
  }

  /** The smallest such request: its cap is the least 64-bit integer, and one stored byte admits anything
      up to 2^63 - 1. */
  lemma WrappedCapAdmitsAll()
    ensures MegabytesToBytes(0x800_0000_0000) == MIN_INT64 && Wrap(MIN_INT64 - Wrap(1 - 0)) == MAX_INT64
  {
    var d := MIN_INT64 - 1;
    WrapUnique(d, d + TWO_64, -1);
    assert Wrap(0x800_0000_0000 * 1024) == 0x20_0000_0000_0000;
    WrapUnique(0x8000_0000_0000_0000, MIN_INT64, 1);
  }
}
