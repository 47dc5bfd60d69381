/** Finding code in a mapped executable: the hook sites by masked patterns, the vendor's functions by
    their first bytes.  Both must refuse rather than guess. */
module DeviceResolver {

  type Byte = b: int | 0 <= b < 256

  // ---------------------------------------------------------------- hook sites

  const SITE_BYTES := 32
  const DISPLACED := 8

  datatype SiteKind = Ptz | Audio

  const PtzSiteNew: seq<Byte> := [
      0x00, 0x00, 0x00, 0x00, 0x00, 0x00, 0x00, 0x00, 0x2d, 0xed, 0x02, 0x8b, 0x87, 0xb0, 0x98, 0x46,
      0xb1, 0xf1, 0x00, 0x09, 0x12, 0x9f, 0x06, 0xda, 0xb1, 0x4b, 0x1b, 0x68, 0xdd, 0x04, 0x1c, 0xd4]
  const PtzSiteOld: seq<Byte> := [
      0x00, 0x00, 0x00, 0x00, 0x00, 0x00, 0x00, 0x00, 0x85, 0xb0, 0x98, 0x46, 0xb1, 0xf1, 0x00, 0x09,
      0x0e, 0x9f, 0x08, 0xda, 0x99, 0x4b, 0x1b, 0x68, 0xda, 0x04, 0x1e, 0xd4, 0x4f, 0xf0, 0xff, 0x30]
  const AudioSite: seq<Byte> := [
      0x00, 0x00, 0x00, 0x00, 0x00, 0x00, 0x00, 0x00, 0x9a, 0xb0, 0x4f, 0xf0, 0x00, 0x04, 0xc0, 0xef,
      0x50, 0x00, 0x0c, 0xab, 0x05, 0x92, 0xcc, 0xbf, 0x52, 0x10, 0x4f, 0xf0, 0xff, 0x32, 0x0a, 0x92]

  /** The mask shared by all three patterns: the first eight bytes, where a hook puts its trampoline,
      are not compared. */
  const SiteMask: seq<Byte> := [
      0, 0, 0, 0, 0, 0, 0, 0, 1, 1, 1, 1, 1, 1, 1, 1,
      1, 1, 1, 1, 1, 1, 1, 1, 1, 1, 1, 1, 1, 1, 1, 1]

  predicate Masked(mapping: seq<Byte>, offset: nat, pattern: seq<Byte>, mask: seq<Byte>)
    requires |pattern| == |mask|
  {
    offset + |pattern| <= |mapping|
    && forall i :: 0 <= i < |pattern| ==> mask[i] != 0 ==> mapping[offset + i] == pattern[i]
  }

  predicate SiteAt(mapping: seq<Byte>, kind: SiteKind, offset: nat) {
    offset % 2 == 0
    && if kind == Ptz then
         Masked(mapping, offset, PtzSiteNew, SiteMask) || Masked(mapping, offset, PtzSiteOld, SiteMask)
       else Masked(mapping, offset, AudioSite, SiteMask)
  }

  /** Writing a trampoline over the first eight bytes at `patched` hides no site and makes none, there
      or anywhere the eight bytes do not overlap. */
  lemma PatchInvisible(mapping: seq<Byte>, kind: SiteKind, patched: nat, code: seq<Byte>, offset: nat)
    requires |code| == DISPLACED && patched + DISPLACED <= |mapping|
    requires offset == patched || offset + SITE_BYTES <= patched || patched + DISPLACED <= offset
    ensures SiteAt(mapping[..patched] + code + mapping[patched + DISPLACED..], kind, offset)
            <==> SiteAt(mapping, kind, offset)
  {
    var now := mapping[..patched] + code + mapping[patched + DISPLACED..];
    MaskedUnder(mapping, now, offset, PtzSiteNew, patched);
    MaskedUnder(mapping, now, offset, PtzSiteOld, patched);
    MaskedUnder(mapping, now, offset, AudioSite, patched);
  }

  lemma MaskedUnder(mapping: seq<Byte>, now: seq<Byte>, offset: nat, pattern: seq<Byte>, patched: nat)
    requires |pattern| == SITE_BYTES && |now| == |mapping|
    requires offset == patched || offset + SITE_BYTES <= patched || patched + DISPLACED <= offset
    requires forall i :: 0 <= i < |mapping| && !(patched <= i < patched + DISPLACED) ==> now[i] == mapping[i]
    ensures Masked(mapping, offset, pattern, SiteMask) <==> Masked(now, offset, pattern, SiteMask)
  {
    forall i | 0 <= i < SITE_BYTES && SiteMask[i] != 0 && offset + SITE_BYTES <= |mapping|
      ensures now[offset + i] == mapping[offset + i]
    {
      assert i >= DISPLACED;
    }
  }

  /** The 24 bytes after the displaced ones decide, at even offsets only. */
  lemma SiteBytes(mapping: seq<Byte>, offset: nat)
    requires offset + 32 <= |mapping|
    ensures SiteAt(mapping, Audio, offset) <==> offset % 2 == 0 && mapping[offset + 8..offset + 32] == AudioSite[8..]
    ensures SiteAt(mapping, Ptz, offset)
            <==> offset % 2 == 0 && (mapping[offset + 8..offset + 32] == PtzSiteNew[8..]
                                     || mapping[offset + 8..offset + 32] == PtzSiteOld[8..])
  {
    TailDecides(mapping, offset, AudioSite);
    TailDecides(mapping, offset, PtzSiteNew);
    TailDecides(mapping, offset, PtzSiteOld);
  }

  lemma TailDecides(mapping: seq<Byte>, offset: nat, pattern: seq<Byte>)
    requires offset + 32 <= |mapping| && |pattern| == 32
    ensures Masked(mapping, offset, pattern, SiteMask) <==> mapping[offset + 8..offset + 32] == pattern[8..]
  {
    var tail := mapping[offset + 8..offset + 32];
    if Masked(mapping, offset, pattern, SiteMask) {
      forall i | 0 <= i < 24 ensures tail[i] == pattern[8..][i] {
        assert SiteMask[i + 8] != 0;
      }
    }
    if tail == pattern[8..] {
      forall i | 0 <= i < 32 && SiteMask[i] != 0 ensures mapping[offset + i] == pattern[i] {
        assert i >= 8;
        assert tail[i - 8] == pattern[8..][i - 8];
      }
    }
  }

  /** e1_signature_matches */
  method SignatureMatches(mapping: seq<Byte>, offset: nat, pattern: seq<Byte>, mask: seq<Byte>)
    returns (matches: bool)
    requires |pattern| == |mask| && offset + |pattern| <= |mapping|
    ensures matches <==> Masked(mapping, offset, pattern, mask)
  {
    for index := 0 to |pattern|
      invariant forall i :: 0 <= i < index ==> mask[i] != 0 ==> mapping[offset + i] == pattern[i]
    {
      if mask[index] != 0 && mapping[offset + index] != pattern[index] {
        return false;
      }
    }
    return true;
  }

  method SiteMatches(mapping: seq<Byte>, kind: SiteKind, offset: nat) returns (matches: bool)
    requires offset % 2 == 0 && offset + SITE_BYTES <= |mapping|
    ensures matches <==> SiteAt(mapping, kind, offset)
  {
    if kind == Ptz {
      matches := SignatureMatches(mapping, offset, PtzSiteNew, SiteMask);
      if !matches {
        matches := SignatureMatches(mapping, offset, PtzSiteOld, SiteMask);
      }
    } else {
      matches := SignatureMatches(mapping, offset, AudioSite, SiteMask);
    }
  }

  /** No site below `end`; exactly one, at `site`; more than one. */
  ghost predicate NoSite(mapping: seq<Byte>, kind: SiteKind, end: nat) {
    forall o: nat :: o < end ==> !SiteAt(mapping, kind, o)
  }

  ghost predicate OneSite(mapping: seq<Byte>, kind: SiteKind, end: nat, site: nat) {
    site < end && SiteAt(mapping, kind, site) && forall o: nat :: o < end && SiteAt(mapping, kind, o) ==> o == site
  }

  ghost predicate SeveralSites(mapping: seq<Byte>, kind: SiteKind) {
    exists o: nat, p: nat :: o != p && SiteAt(mapping, kind, o) && SiteAt(mapping, kind, p)
  }

  lemma NextSite(mapping: seq<Byte>, kind: SiteKind, offset: nat)
    requires offset % 2 == 0
    ensures NoSite(mapping, kind, offset) ==>
              if SiteAt(mapping, kind, offset) then OneSite(mapping, kind, offset + 2, offset)
              else NoSite(mapping, kind, offset + 2)
  {
    OddOffset(mapping, kind, offset + 1);
  }

  lemma SecondSite(mapping: seq<Byte>, kind: SiteKind, offset: nat, first: nat)
    requires offset % 2 == 0 && OneSite(mapping, kind, offset, first)
    ensures if SiteAt(mapping, kind, offset) then SeveralSites(mapping, kind)
            else OneSite(mapping, kind, offset + 2, first)
  {
    OddOffset(mapping, kind, offset + 1);
  }

  lemma OddOffset(mapping: seq<Byte>, kind: SiteKind, offset: nat)
    requires offset % 2 == 1
    ensures !SiteAt(mapping, kind, offset)
  {
  }

  /** The three outcomes exclude one another, and nothing matches past the end. */
  lemma Outcomes(mapping: seq<Byte>, kind: SiteKind, end: nat, first: nat)
    requires end + SITE_BYTES > |mapping|
    ensures NoSite(mapping, kind, end) ==> NoSite(mapping, kind, |mapping|)
    ensures OneSite(mapping, kind, end, first) ==> OneSite(mapping, kind, |mapping|, first)
  {
  }

  lemma OutcomesExclude(mapping: seq<Byte>, kind: SiteKind, first: nat)
    ensures NoSite(mapping, kind, |mapping|) ==>
              !OneSite(mapping, kind, |mapping|, first) && !SeveralSites(mapping, kind)
    ensures OneSite(mapping, kind, |mapping|, first) ==> !SeveralSites(mapping, kind)
  {
  }

  /** e1_find_device_site: 0, 1 or -1 as no, one or several even offsets match. */
  method FindDeviceSite(mapping: seq<Byte>, mappingAddress: nat, kind: SiteKind, site: nat)
    returns (found: int, address: nat)
    ensures found == 0 || found == 1 || found == -1
    ensures found == 0 <==> NoSite(mapping, kind, |mapping|)
    ensures found == -1 <==> SeveralSites(mapping, kind)
    ensures found == 0 ==> address == site
    ensures found == 1 ==>
              address >= mappingAddress && OneSite(mapping, kind, |mapping|, address - mappingAddress)
  {
    found, address := 0, site;
    if |mapping| < SITE_BYTES {
      OutcomesExclude(mapping, kind, 0);
      return;
    }
    ghost var first: nat := 0;
    var offset := 0;
    while offset <= |mapping| - SITE_BYTES
      invariant offset % 2 == 0 && (found == 0 || found == 1)
      invariant found == 0 ==> address == site && NoSite(mapping, kind, offset)
      invariant found == 1 ==> address == mappingAddress + first && OneSite(mapping, kind, offset, first)
    {
      NextSite(mapping, kind, offset);
      if found == 1 { SecondSite(mapping, kind, offset, first); }
      var matches := SiteMatches(mapping, kind, offset);
      if matches {
        if found != 0 {
          OutcomesExclude(mapping, kind, 0);
          return -1, address;
        }
        address, found, first := mappingAddress + offset, 1, offset;
      }
      offset := offset + 2;
    }
    Outcomes(mapping, kind, offset, first);
    OutcomesExclude(mapping, kind, first);
  }

  // ---------------------------------------------------------------- functions

  const SIGNATURE_BYTES := 12
  const FUNCTIONS := 20
  const ADDRESS_MAX := 0xffff_ffff
  const SPAN := 0x2_0000

  const MEM_ALLOC := 0
  const MEM_FREE := 1
  const VIDEOENC_OPEN := 2
  const VIDEOENC_START := 3
  const VIDEOENC_STOP := 4
  const VIDEOENC_CLOSE := 5
  const VIDEOENC_SET := 6
  const VIDEOPROC_PULL := 7
  const VIDEOPROC_RELEASE := 8
  const MEM_MMAP := 9
  const MEM_MUNMAP := 10
  const AUDIOENC_OPEN := 11
  const AUDIOENC_START := 12
  const AUDIOENC_STOP := 13
  const AUDIOENC_CLOSE := 14
  const AUDIOENC_GET := 15
  const AUDIOENC_SET := 16
  const AUDIOENC_PUSH := 17
  const AUDIOENC_PULL := 18
  const AUDIOENC_RELEASE := 19

  const Signatures: seq<seq<Byte>> := [
    [0xc0, 0xef, 0x50, 0x00, 0x2d, 0xe9, 0xf0, 0x4f, 0x97, 0xb0, 0xdf, 0xf8],
    [0x2d, 0xe9, 0xf0, 0x41, 0x04, 0x46, 0xdf, 0xf8, 0xdc, 0x80, 0x88, 0xb0],
    [0x2d, 0xe9, 0xf0, 0x4f, 0x8b, 0xb0, 0xdf, 0xf8, 0x84, 0x67, 0x17, 0x46],
    [0x2d, 0xe9, 0xf0, 0x4f, 0xc5, 0xb2, 0xdf, 0xf8, 0x04, 0x45, 0xc9, 0xb0],
    [0x2d, 0xe9, 0xf0, 0x47, 0xc5, 0xb2, 0xdf, 0xf8, 0x00, 0x83, 0x86, 0xb0],
    [0x2d, 0xe9, 0xf0, 0x4f, 0x04, 0x46, 0xdf, 0xf8, 0x20, 0x54, 0x9f, 0xb0],
    [0xc0, 0xef, 0x50, 0x00, 0x2d, 0xe9, 0xf0, 0x4f, 0xf5, 0xb0, 0xdf, 0xf8],
    [0x2d, 0xe9, 0xf0, 0x4f, 0xbd, 0xb0, 0x52, 0x4e, 0x52, 0x4b, 0x7e, 0x44],
    [0x2d, 0xe9, 0xf0, 0x47, 0xbc, 0xb0, 0x4a, 0x4e, 0x4a, 0x4b, 0x7e, 0x44],
    [0x2d, 0xe9, 0xf0, 0x43, 0x85, 0xb0, 0x50, 0x4e, 0x50, 0x4b, 0x7e, 0x44],
    [0x70, 0xb5, 0x84, 0xb0, 0x29, 0x4e, 0x2a, 0x4b, 0x7e, 0x44, 0xf3, 0x58],
    [0x2d, 0xe9, 0xf0, 0x4f, 0x8d, 0xb0, 0xdf, 0xf8, 0x0c, 0x54, 0x0c, 0x46],
    [0x2d, 0xe9, 0xf0, 0x42, 0x04, 0x46, 0x70, 0x4e, 0x88, 0xb0, 0x70, 0x4b],
    [0x2d, 0xe9, 0xf0, 0x41, 0x04, 0x46, 0x51, 0x4d, 0x86, 0xb0, 0x51, 0x4b],
    [0xc0, 0xef, 0x50, 0x00, 0x2d, 0xe9, 0xf0, 0x4f, 0x99, 0xb0, 0xf3, 0x4c],
    [0x2d, 0xe9, 0xf0, 0x47, 0x88, 0xb0, 0xdf, 0xf8, 0xa0, 0x83, 0x0c, 0x46],
    [0xc0, 0xef, 0x50, 0x00, 0x2d, 0xe9, 0xf0, 0x4f, 0x95, 0xb0, 0xdf, 0xf8],
    [0x2d, 0xe9, 0xf0, 0x4f, 0x0d, 0x46, 0x77, 0x4e, 0xbf, 0xb0, 0x77, 0x4a],
    [0x2d, 0xe9, 0xf0, 0x4e, 0x04, 0x46, 0x6c, 0x4e, 0xbe, 0xb0, 0x6c, 0x4b],
    [0x2d, 0xe9, 0xf0, 0x4f, 0x0e, 0x46, 0x53, 0x4d, 0xbd, 0xb0, 0x53, 0x4b]
  ]

  predicate Table(signatures: seq<seq<Byte>>) {
    |signatures| == FUNCTIONS && forall k :: 0 <= k < FUNCTIONS ==> |signatures[k]| == SIGNATURE_BYTES
  }

  predicate FunctionAt(mapping: seq<Byte>, signature: seq<Byte>, offset: nat) {
    offset % 2 == 0 && offset + |signature| <= |mapping| && mapping[offset..offset + |signature|] == signature
  }

  ghost predicate NoFunction(mapping: seq<Byte>, signature: seq<Byte>, end: nat) {
    forall o: nat :: o < end ==> !FunctionAt(mapping, signature, o)
  }

  ghost predicate OnlyFunction(mapping: seq<Byte>, signature: seq<Byte>, end: nat, offset: nat) {
    && offset < end && FunctionAt(mapping, signature, offset)
    && forall o: nat :: o < end && FunctionAt(mapping, signature, o) ==> o == offset
  }

  /** An audio-stop candidate strictly between two addresses. */
  predicate StopAt(mapping: seq<Byte>, signature: seq<Byte>, base: nat, low: nat, high: nat, offset: nat) {
    FunctionAt(mapping, signature, offset) && low < base + offset < high
  }

  ghost predicate OnlyStop(mapping: seq<Byte>, signature: seq<Byte>, base: nat, low: nat, high: nat, end: nat,
                           offset: nat)
  {
    && offset < end && StopAt(mapping, signature, base, low, high, offset)
    && forall o: nat :: o < end && StopAt(mapping, signature, base, low, high, o) ==> o == offset
  }

  const MemoryOrder: seq<nat> := [MEM_MMAP, MEM_MUNMAP, MEM_ALLOC, MEM_FREE]
  const VideoOrder: seq<nat> := [VIDEOENC_OPEN, VIDEOENC_START, VIDEOENC_STOP, VIDEOENC_CLOSE, VIDEOENC_SET]
  const AudioOrder: seq<nat> := [
    AUDIOENC_OPEN, AUDIOENC_START, AUDIOENC_STOP, AUDIOENC_CLOSE, AUDIOENC_GET, AUDIOENC_SET, AUDIOENC_PUSH,
    AUDIOENC_PULL, AUDIOENC_RELEASE]

  predicate OrderOk(order: seq<nat>) {
    |order| > 1 && forall i :: 0 <= i < |order| ==> order[i] < FUNCTIONS
  }

  /** The functions of one group ascend and lie within 128 KiB. */
  predicate Ordered(address: seq<nat>, order: seq<nat>)
    requires |address| == FUNCTIONS && OrderOk(order)
  {
    && (forall i :: 1 <= i < |order| ==> address[order[i - 1]] < address[order[i]])
    && address[order[|order| - 1]] - address[order[0]] <= SPAN
  }

  /** A function stands at an even offset whose first bytes are its signature. */
  lemma FunctionBytes(mapping: seq<Byte>, signature: seq<Byte>, offset: nat)
    requires |signature| == 12
    ensures FunctionAt(mapping, signature, offset)
            <==> offset % 2 == 0 && offset + 12 <= |mapping|
                 && forall i :: 0 <= i < 12 ==> mapping[offset + i] == signature[i]
  {
    if offset + 12 <= |mapping| {
      var bytes := mapping[offset..offset + 12];
      if forall i :: 0 <= i < 12 ==> mapping[offset + i] == signature[i] { assert bytes == signature; }
      if bytes == signature {
        forall i | 0 <= i < 12 ensures mapping[offset + i] == signature[i] {
          assert bytes[i] == signature[i];
        }
      }
    }
  }

  // The three orders, function by function, and their span of 128 KiB.

  lemma MemoryMeans(a: seq<nat>)
    requires |a| == FUNCTIONS
    ensures Ordered(a, MemoryOrder)
            <==> a[MEM_MMAP] < a[MEM_MUNMAP] && a[MEM_MUNMAP] < a[MEM_ALLOC]
                 && a[MEM_ALLOC] < a[MEM_FREE]
                 && a[MEM_FREE] <= a[MEM_MMAP] + 0x2_0000
  {
    var order := MemoryOrder;
    assert order[0] == MEM_MMAP && order[1] == MEM_MUNMAP && order[2] == MEM_ALLOC && order[3] == MEM_FREE;
    assert |order| == 4;
  }

  lemma VideoMeans(a: seq<nat>)
    requires |a| == FUNCTIONS
    ensures Ordered(a, VideoOrder)
            <==> a[VIDEOENC_OPEN] < a[VIDEOENC_START] && a[VIDEOENC_START] < a[VIDEOENC_STOP]
                 && a[VIDEOENC_STOP] < a[VIDEOENC_CLOSE] && a[VIDEOENC_CLOSE] < a[VIDEOENC_SET]
                 && a[VIDEOENC_SET] <= a[VIDEOENC_OPEN] + 0x2_0000
  {
    var order := VideoOrder;
    assert order[0] == VIDEOENC_OPEN && order[1] == VIDEOENC_START && order[2] == VIDEOENC_STOP
           && order[3] == VIDEOENC_CLOSE && order[4] == VIDEOENC_SET;
    assert |order| == 5;
  }

  lemma AudioMeans(a: seq<nat>)
    requires |a| == FUNCTIONS
    ensures Ordered(a, AudioOrder)
            <==> a[AUDIOENC_OPEN] < a[AUDIOENC_START] && a[AUDIOENC_START] < a[AUDIOENC_STOP]
                 && a[AUDIOENC_STOP] < a[AUDIOENC_CLOSE] && a[AUDIOENC_CLOSE] < a[AUDIOENC_GET]
                 && a[AUDIOENC_GET] < a[AUDIOENC_SET] && a[AUDIOENC_SET] < a[AUDIOENC_PUSH]
                 && a[AUDIOENC_PUSH] < a[AUDIOENC_PULL] && a[AUDIOENC_PULL] < a[AUDIOENC_RELEASE]
                 && a[AUDIOENC_RELEASE] <= a[AUDIOENC_OPEN] + 0x2_0000
  {
    var order := AudioOrder;
    assert order[0] == AUDIOENC_OPEN && order[1] == AUDIOENC_START && order[2] == AUDIOENC_STOP
           && order[3] == AUDIOENC_CLOSE && order[4] == AUDIOENC_GET;
    assert order[5] == AUDIOENC_SET && order[6] == AUDIOENC_PUSH && order[7] == AUDIOENC_PULL
           && order[8] == AUDIOENC_RELEASE;
    assert |order| == 9;
  }

  /** What the resolver looks for: for each function the address of its only match, for audio-stop the
      only one between audio-start and audio-close, and the three groups in order. */
  ghost predicate Resolved(mapping: seq<Byte>, base: nat, signatures: seq<seq<Byte>>, address: seq<nat>)
    requires Table(signatures)
  {
    && |address| == FUNCTIONS && base + |mapping| <= ADDRESS_MAX
    && (forall k :: 0 <= k < FUNCTIONS && k != AUDIOENC_STOP ==>
          address[k] >= base && OnlyFunction(mapping, signatures[k], |mapping|, address[k] - base))
    && address[AUDIOENC_STOP] >= base
    && OnlyStop(mapping, signatures[AUDIOENC_STOP], base, address[AUDIOENC_START], address[AUDIOENC_CLOSE],
                |mapping|, address[AUDIOENC_STOP] - base)
    && Ordered(address, MemoryOrder) && Ordered(address, VideoOrder) && Ordered(address, AudioOrder)
  }

  /** At most one assignment of addresses satisfies the specification. */
  lemma ResolvedUnique(mapping: seq<Byte>, base: nat, signatures: seq<seq<Byte>>, a: seq<nat>, b: seq<nat>)
    requires Table(signatures)
    requires Resolved(mapping, base, signatures, a) && Resolved(mapping, base, signatures, b)
    ensures a == b
  {
    forall k | 0 <= k < FUNCTIONS ensures a[k] == b[k] {
      if k != AUDIOENC_STOP {
        assert a[k] - base == b[k] - base;
      } else {
        assert a[AUDIOENC_START] - base == b[AUDIOENC_START] - base;
        assert a[AUDIOENC_CLOSE] - base == b[AUDIOENC_CLOSE] - base;
      }
    }
  }

  lemma NextFunction(mapping: seq<Byte>, signature: seq<Byte>, offset: nat, first: nat)
    requires offset % 2 == 0
    ensures NoFunction(mapping, signature, offset) ==>
              if FunctionAt(mapping, signature, offset) then OnlyFunction(mapping, signature, offset + 2, offset)
              else NoFunction(mapping, signature, offset + 2)
    ensures OnlyFunction(mapping, signature, offset, first) && !FunctionAt(mapping, signature, offset) ==>
              OnlyFunction(mapping, signature, offset + 2, first)
  {
    assert !FunctionAt(mapping, signature, offset + 1);
  }

  /** The scan for one function. */
  method ScanFunction(mapping: seq<Byte>, base: nat, signature: seq<Byte>, kind: nat, address: array<nat>)
    returns (matches: nat)
    requires kind < FUNCTIONS == address.Length && |signature| == SIGNATURE_BYTES <= |mapping|
    modifies address
    ensures matches == 0 <==> NoFunction(mapping, signature, |mapping|)
    ensures matches == 1 <==> exists o :: OnlyFunction(mapping, signature, |mapping|, o)
    ensures matches == 1 && kind != AUDIOENC_STOP ==>
              address[kind] >= base && OnlyFunction(mapping, signature, |mapping|, address[kind] - base)
    ensures forall k :: 0 <= k < FUNCTIONS && k != kind ==> address[k] == old(address[k])
    ensures kind == AUDIOENC_STOP ==> address[kind] == old(address[kind])
  {
    matches := 0;
    ghost var first, second: nat := 0, 0;
    var offset := 0;
    while offset <= |mapping| - SIGNATURE_BYTES
      invariant offset % 2 == 0
      invariant matches == 0 ==> NoFunction(mapping, signature, offset)
      invariant matches == 1 ==> OnlyFunction(mapping, signature, offset, first)
      invariant matches > 1 ==>
                  first != second && FunctionAt(mapping, signature, first) && FunctionAt(mapping, signature, second)
      invariant matches >= 1 && kind != AUDIOENC_STOP ==> address[kind] == base + first
      invariant forall k :: 0 <= k < FUNCTIONS && k != kind ==> address[k] == old(address[k])
      invariant kind == AUDIOENC_STOP ==> address[kind] == old(address[kind])
    {
      NextFunction(mapping, signature, offset, first);
      if mapping[offset..offset + SIGNATURE_BYTES] == signature {
        matches := matches + 1;
        if matches == 1 {
          first := offset;
          if kind != AUDIOENC_STOP { address[kind] := base + offset; }
        } else if matches == 2 {
          second := offset;
        }
      }
      offset := offset + 2;
    }
    ScanDone(mapping, signature, offset, first);
  }

  lemma ScanDone(mapping: seq<Byte>, signature: seq<Byte>, end: nat, first: nat)
    requires end + |signature| > |mapping| && signature != []
    ensures NoFunction(mapping, signature, end) ==> NoFunction(mapping, signature, |mapping|)
    ensures OnlyFunction(mapping, signature, end, first) ==> OnlyFunction(mapping, signature, |mapping|, first)
  {
  }

  /** e1_device_function_range_ordered */
  method RangeOrdered(address: array<nat>, first: nat, last: nat, order: seq<nat>) returns (ordered: bool)
    requires address.Length == FUNCTIONS && OrderOk(order) && first == order[0] && last == order[|order| - 1]
    ensures ordered <==> Ordered(address[..], order)
  {
    if address[last] <= address[first] || address[last] - address[first] > SPAN {
      if Ordered(address[..], order) { Ascends(address[..], order, |order| - 1); }
      return false;
    }
    for index := 1 to |order|
      invariant forall i :: 1 <= i < index ==> address[order[i - 1]] < address[order[i]]
    {
      if address[order[index]] <= address[order[index - 1]] {
        return false;
      }
    }
    return true;
  }

  lemma {:induction false} Ascends(address: seq<nat>, order: seq<nat>, i: nat)
    requires |address| == FUNCTIONS && OrderOk(order) && Ordered(address, order) && 1 <= i < |order|
    ensures address[order[0]] < address[order[i]]
  {
    if i > 1 { Ascends(address, order, i - 1); }
  }

  /** Every kind below `kinds` but audio-stop has its only match in the table. */
  ghost predicate Scanned(mapping: seq<Byte>, base: nat, signatures: seq<seq<Byte>>, address: seq<nat>, kinds: nat)
    requires Table(signatures)
  {
    |address| == FUNCTIONS && kinds <= FUNCTIONS
    && forall k :: 0 <= k < kinds && k != AUDIOENC_STOP ==>
         address[k] >= base && OnlyFunction(mapping, signatures[k], |mapping|, address[k] - base)
  }

  ghost predicate Unresolvable(mapping: seq<Byte>, base: nat, signatures: seq<seq<Byte>>)
    requires Table(signatures)
  {
    forall a :: !Resolved(mapping, base, signatures, a)
  }

  lemma NotUnique(mapping: seq<Byte>, base: nat, signatures: seq<seq<Byte>>, kind: nat)
    requires Table(signatures) && kind < FUNCTIONS && kind != AUDIOENC_STOP
    requires forall o: nat :: !OnlyFunction(mapping, signatures[kind], |mapping|, o)
    ensures Unresolvable(mapping, base, signatures)
  {
    forall a ensures !Resolved(mapping, base, signatures, a) {
      var found := |a| == FUNCTIONS && a[kind] >= base
                   && OnlyFunction(mapping, signatures[kind], |mapping|, a[kind] - base);
    }
  }

  /** Whatever satisfies the specification agrees with a completed scan. */
  lemma Forced(mapping: seq<Byte>, base: nat, signatures: seq<seq<Byte>>, address: seq<nat>, a: seq<nat>)
    requires Table(signatures) && Scanned(mapping, base, signatures, address, FUNCTIONS)
    requires Resolved(mapping, base, signatures, a)
    ensures forall k :: 0 <= k < FUNCTIONS && k != AUDIOENC_STOP ==> a[k] == address[k]
    ensures OnlyStop(mapping, signatures[AUDIOENC_STOP], base, address[AUDIOENC_START], address[AUDIOENC_CLOSE],
                     |mapping|, a[AUDIOENC_STOP] - base)
  {
    forall k | 0 <= k < FUNCTIONS && k != AUDIOENC_STOP ensures a[k] == address[k] {
      assert FunctionAt(mapping, signatures[k], a[k] - base);
    }
  }

  lemma NoStop(mapping: seq<Byte>, base: nat, signatures: seq<seq<Byte>>, address: seq<nat>)
    requires Table(signatures) && Scanned(mapping, base, signatures, address, FUNCTIONS)
    requires forall o: nat :: !OnlyStop(mapping, signatures[AUDIOENC_STOP], base, address[AUDIOENC_START],
                                        address[AUDIOENC_CLOSE], |mapping|, o)
    ensures Unresolvable(mapping, base, signatures)
  {
    forall a | Resolved(mapping, base, signatures, a) ensures false {
      Forced(mapping, base, signatures, address, a);
    }
  }

  /** With audio-stop found as well, only the order checks are left. */
  lemma OrderDecides(mapping: seq<Byte>, base: nat, signatures: seq<seq<Byte>>, address: seq<nat>, stop: nat)
    requires Table(signatures) && Scanned(mapping, base, signatures, address, FUNCTIONS)
    requires base + |mapping| <= ADDRESS_MAX && stop >= base
    requires OnlyStop(mapping, signatures[AUDIOENC_STOP], base, address[AUDIOENC_START], address[AUDIOENC_CLOSE],
                      |mapping|, stop - base)
    ensures var full := address[AUDIOENC_STOP := stop];
            if Ordered(full, MemoryOrder) && Ordered(full, VideoOrder) && Ordered(full, AudioOrder)
            then Resolved(mapping, base, signatures, full)
            else Unresolvable(mapping, base, signatures)
  {
    forall a | Resolved(mapping, base, signatures, a) ensures a == address[AUDIOENC_STOP := stop] {
      Forced(mapping, base, signatures, address, a);
      assert a[AUDIOENC_STOP] - base == stop - base;
    }
  }

  lemma NextStop(mapping: seq<Byte>, signature: seq<Byte>, base: nat, low: nat, high: nat, offset: nat, first: nat)
    requires offset % 2 == 0 && signature != []
    ensures NoStopBelow(mapping, signature, base, low, high, offset) ==>
              if StopAt(mapping, signature, base, low, high, offset)
              then OnlyStop(mapping, signature, base, low, high, offset + 2, offset)
              else NoStopBelow(mapping, signature, base, low, high, offset + 2)
    ensures OnlyStop(mapping, signature, base, low, high, offset, first) ==>
              if StopAt(mapping, signature, base, low, high, offset)
              then forall o: nat :: !OnlyStop(mapping, signature, base, low, high, |mapping|, o)
              else OnlyStop(mapping, signature, base, low, high, offset + 2, first)
  {
    assert !FunctionAt(mapping, signature, offset + 1);
    if OnlyStop(mapping, signature, base, low, high, offset, first)
       && StopAt(mapping, signature, base, low, high, offset) {
      assert StopAt(mapping, signature, base, low, high, first) && first != offset < |mapping|;
    }
  }

  ghost predicate NoStopBelow(mapping: seq<Byte>, signature: seq<Byte>, base: nat, low: nat, high: nat, end: nat) {
    forall o: nat :: o < end ==> !StopAt(mapping, signature, base, low, high, o)
  }

  lemma StopsDone(mapping: seq<Byte>, signature: seq<Byte>, base: nat, low: nat, high: nat, end: nat, first: nat)
    requires end + |signature| > |mapping| && signature != []
    ensures NoStopBelow(mapping, signature, base, low, high, end) ==>
              forall o: nat :: !OnlyStop(mapping, signature, base, low, high, |mapping|, o)
    ensures OnlyStop(mapping, signature, base, low, high, end, first) ==>
              OnlyStop(mapping, signature, base, low, high, |mapping|, first)
  {
  }

  /** The second scan, for audio-stop; 0 stands for "none yet" as in the code. */
  method ScanStop(mapping: seq<Byte>, base: nat, signature: seq<Byte>, start: nat, close: nat)
    returns (status: int, stop: nat)
    requires |signature| == SIGNATURE_BYTES <= |mapping|
    ensures status == 0 || status == 1
    ensures status == 1 ==> stop >= base && OnlyStop(mapping, signature, base, start, close, |mapping|, stop - base)
    ensures status == 0 ==> forall o: nat :: !OnlyStop(mapping, signature, base, start, close, |mapping|, o)
  {
    stop := 0;
    ghost var first: nat := 0;
    var offset := 0;
    while offset <= |mapping| - SIGNATURE_BYTES
      invariant offset % 2 == 0
      invariant stop == 0 ==> NoStopBelow(mapping, signature, base, start, close, offset)
      invariant stop != 0 ==> stop == base + first && OnlyStop(mapping, signature, base, start, close, offset, first)
    {
      var candidate := base + offset;
      NextStop(mapping, signature, base, start, close, offset, first);
      if mapping[offset..offset + SIGNATURE_BYTES] == signature && candidate > start && candidate < close {
        if stop != 0 {
          return 0, stop;
        }
        stop, first := candidate, offset;
      }
      offset := offset + 2;
    }
    StopsDone(mapping, signature, base, start, close, offset, first);
    status := if stop == 0 then 0 else 1;
  }

  /** e1_resolve_device_functions: 1 exactly when the specification can be met, and then the table is
      the one assignment that meets it. */
  method ResolveDeviceFunctions(mapping: seq<Byte>, base: nat, signatures: seq<seq<Byte>>, address: array<nat>)
    returns (status: int)
    requires Table(signatures) && address.Length == FUNCTIONS
    modifies address
    ensures status == 0 || status == 1
    ensures status == 1 ==> Resolved(mapping, base, signatures, address[..])
    ensures status == 0 ==> Unresolvable(mapping, base, signatures)
  {
    Clear(address);
    if |mapping| < SIGNATURE_BYTES || base > ADDRESS_MAX - |mapping| {
      return 0;
    }
    var stops := 0;
    for kind := 0 to FUNCTIONS
      invariant Scanned(mapping, base, signatures, address[..], kind)
      invariant kind > AUDIOENC_STOP && stops == 0 ==> NoFunction(mapping, signatures[AUDIOENC_STOP], |mapping|)
    {
      var matches := ScanFunction(mapping, base, signatures[kind], kind, address);
      if kind == AUDIOENC_STOP {
        stops := matches;
      } else if matches != 1 {
        NotUnique(mapping, base, signatures, kind);
        return 0;
      }
    }
    if stops == 0 {
      NoStop(mapping, base, signatures, address[..]);
      return 0;
    }
    var found, stop := ScanStop(mapping, base, signatures[AUDIOENC_STOP], address[AUDIOENC_START],
                                address[AUDIOENC_CLOSE]);
    if found == 0 {
      NoStop(mapping, base, signatures, address[..]);
      return 0;
    }
    OrderDecides(mapping, base, signatures, address[..], stop);
    ghost var full := address[..][AUDIOENC_STOP := stop];
    address[AUDIOENC_STOP] := stop;
    assert address[..] == full;
    status := CheckRanges(address);
  }

  method Clear(address: array<nat>)
    modifies address
    ensures forall k :: 0 <= k < address.Length ==> address[k] == 0
  {
    for k := 0 to address.Length
      invariant forall i :: 0 <= i < k ==> address[i] == 0
    {
      address[k] := 0;
    }
  }

  /** The three order checks that end the resolver; a failure wipes the table. */
  method CheckRanges(address: array<nat>) returns (status: int)
    requires address.Length == FUNCTIONS
    modifies address
    ensures status == if Ordered(old(address[..]), MemoryOrder) && Ordered(old(address[..]), VideoOrder)
                         && Ordered(old(address[..]), AudioOrder) then 1 else 0
    ensures status == 1 ==> address[..] == old(address[..])
    ensures status == 0 ==> forall k :: 0 <= k < FUNCTIONS ==> address[k] == 0
  {
    var memory := RangeOrdered(address, MEM_MMAP, MEM_FREE, MemoryOrder);
    var video := RangeOrdered(address, VIDEOENC_OPEN, VIDEOENC_SET, VideoOrder);
    var audio := RangeOrdered(address, AUDIOENC_OPEN, AUDIOENC_RELEASE, AudioOrder);
    if !memory || !video || !audio {
      Clear(address);
      return 0;
    }
    return 1;
  }

  /** The resolver with the signatures it is built with. */
  method ResolveAll(mapping: seq<Byte>, base: nat, address: array<nat>) returns (status: int)
    requires address.Length == FUNCTIONS
    modifies address
    ensures status == 1 ==> Resolved(mapping, base, Signatures, address[..])
    ensures status != 1 ==> Unresolvable(mapping, base, Signatures)
  {
    status := ResolveDeviceFunctions(mapping, base, Signatures, address);
  }
}
