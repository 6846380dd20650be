/** The decision whether an advertising report matches the scan filters (src/nrf_hal/scan.c). */
module ScanFilter {
  import opened Bytes
  import opened ConnectionAttempts
  import opened Uuids

  /** The kinds of filter, each with its own switch. */
  datatype Kind = AddressKind | NameKind | ShortNameKind | UuidKind | AppearanceKind | ManufacturerKind

  datatype AdType = NameComplete | NameShortened | Appearance | Uuids(size: nat) | Manufacturer | OtherType

  /** One advertising structure. */
  datatype AdStruct = AdStruct(kind: AdType, data: seq<byte>) {
    /** Lists of UUIDs consist of whole UUIDs. */
    ghost predicate Valid() {
      kind.Uuids? ==> kind.size in {2, 4, 16} && |data| % kind.size == 0
    }
  }

  /** The filters in use: `enabled` are the kinds that are compiled in and switched on; names are C strings. */
  datatype Filters = Filters(enabled: set<Kind>, allMode: bool, addrs: seq<Addr>, names: seq<seq<byte>>,
                             shortNames: seq<(seq<byte>, nat)>, uuids: seq<Uuid>, appearances: seq<uint16>,
                             manufacturers: seq<seq<byte>>) {
    ghost predicate Valid() {
      && (forall i | 0 <= i < |names| :: 0 !in names[i])
      && (forall i | 0 <= i < |shortNames| :: 0 !in shortNames[i].0)
      && |uuids| < 0x100
    }
  }

  // ---- what a single structure matches ----

  /** strncmp on a C string and `data`: one is a prefix of the other, as far as C looks. */
  ghost predicate SameName(target: seq<byte>, data: seq<byte>) {
    if |data| <= |target| then data <= target else target + [0] <= data
  }

  /** What strncmp compares: character by character, the terminator of the stored name included, nothing behind it. */
  lemma {:induction false} NameByCharacter(target: seq<byte>, data: seq<byte>)
    requires 0 !in target
    ensures SameName(target, data) <==>
            forall i | 0 <= i < |data| && i <= |target| :: data[i] == if i < |target| then target[i] else 0
  {
    if |data| > |target| && (forall i | 0 <= i <= |target| :: data[i] == (target + [0])[i]) {
      assert data[..|target| + 1] == target + [0];
    }
    if SameName(target, data) && |data| > |target| {
      assert forall i | 0 <= i <= |target| :: data[i] == (target + [0])[i];
    }
  }

  function LittleEndian(s: seq<byte>): nat {
    if s == [] then 0 else s[0] as int + 256 * LittleEndian(s[1..])
  }

  lemma {:induction false} LittleEndianBound(s: seq<byte>)
    ensures |s| == 2 ==> LittleEndian(s) < 0x1_0000
    ensures |s| == 4 ==> LittleEndian(s) < TWO32
  {
    if |s| == 2 || |s| == 4 {
      assert LittleEndian(s) == s[0] as int + 256 * LittleEndian(s[1..]);
      assert LittleEndian(s[1..]) == s[1] as int + 256 * LittleEndian(s[2..]);
    }
    if |s| == 4 {
      assert LittleEndian(s[2..]) == s[2] as int + 256 * LittleEndian(s[3..]);
      assert LittleEndian(s[3..]) == s[3] as int + 256 * LittleEndian(s[4..]);
    }
  }

  /** bt_uuid_create on 2, 4 or 16 bytes. */
  function UuidOf(s: seq<byte>): Uuid
    requires |s| in {2, 4, 16}
  {
    LittleEndianBound(s);
    if |s| == 2 then Uuid16(LittleEndian(s))
    else if |s| == 4 then Uuid32(LittleEndian(s))
    else LittleEndianBound(s[12..]); Uuid128(LittleEndian(s[12..]), LittleEndian(s[..12]))
  }

  /** A number in `n` bytes, least significant first. */
  function Bytewise(v: nat, n: nat): (s: seq<byte>)
    ensures |s| == n
  {
    if n == 0 then [] else [v % 256] + Bytewise(v / 256, n - 1)
  }

  function Power(n: nat): nat {
    if n == 0 then 1 else 256 * Power(n - 1)
  }

  lemma {:induction false} BytewiseReadsBack(v: nat, n: nat)
    requires v < Power(n)
    ensures LittleEndian(Bytewise(v, n)) == v
  {
    if n > 0 {
      BytewiseReadsBack(v / 256, n - 1);
      assert Bytewise(v, n)[1..] == Bytewise(v / 256, n - 1);
    }
  }

  /** A UUID as it is advertised. */
  ghost predicate Encodable(u: Uuid) {
    u.Uuid128? ==> u.tail < Power(12)
  }

  function Encoded(u: Uuid): (s: seq<byte>)
    ensures |s| == match u case Uuid16(_) => 2 case Uuid32(_) => 4 case Uuid128(_, _) => 16
  {
    match u
    case Uuid16(v) => Bytewise(v, 2)
    case Uuid32(v) => Bytewise(v, 4)
    case Uuid128(head, tail) => Bytewise(tail, 12) + Bytewise(head, 4)
  }

  /** Reading a UUID undoes writing it. */
  lemma {:induction false} UuidReadsBack(u: Uuid)
    requires Encodable(u)
    ensures UuidOf(Encoded(u)) == u
  {
    assert Power(2) == 0x1_0000 && Power(4) == 0x1_0000 * Power(2);
    match u {
      case Uuid16(v) => BytewiseReadsBack(v, 2);
      case Uuid32(v) => BytewiseReadsBack(v, 4);
      case Uuid128(head, tail) =>
        BytewiseReadsBack(tail, 12);
        BytewiseReadsBack(head, 4);
        assert Encoded(u)[..12] == Bytewise(tail, 12) && Encoded(u)[12..] == Bytewise(head, 4);
    }
  }

  /** Two bytes of a 16-bit UUID or an appearance, as they come over the air. */
  lemma TwoBytes(low: byte, high: byte)
    ensures UuidOf([low, high]) == Uuid16(low as int + 256 * high as int)
    ensures LittleEndian([low, high]) == low as int + 256 * high as int
  {
    assert LittleEndian([low, high]) == low as int + 256 * LittleEndian([high]);
    assert LittleEndian([high]) == high as int + 256 * LittleEndian([]);
  }

  ghost predicate Lists(data: seq<byte>, size: nat, u: Uuid)
    requires size in {2, 4, 16} && |data| % size == 0
  {
    exists k | 0 <= k < |data| / size :: SameUuid(UuidAt(data, size, k), u)
  }

  function UuidAt(data: seq<byte>, size: nat, k: nat): Uuid
    requires size in {2, 4, 16} && k < |data| / size
  {
    UuidOf(data[k * size..k * size + size])
  }

  ghost predicate Uniform(us: seq<Uuid>, size: nat) {
    forall i | 0 <= i < |us| :: Encodable(us[i]) && |Encoded(us[i])| == size
  }

  function EncodedAll(us: seq<Uuid>): seq<byte> {
    if us == [] then [] else Encoded(us[0]) + EncodedAll(us[1..])
  }

  lemma {:induction false} EncodedConcat(us: seq<Uuid>, vs: seq<Uuid>)
    ensures EncodedAll(us + vs) == EncodedAll(us) + EncodedAll(vs)
  {
    if us == [] {
      assert us + vs == vs;
    } else {
      assert (us + vs)[1..] == us[1..] + vs;
      EncodedConcat(us[1..], vs);
    }
  }

  lemma {:induction false} EncodedLength(us: seq<Uuid>, size: nat)
    requires size in {2, 4, 16} && Uniform(us, size)
    ensures |EncodedAll(us)| == |us| * size
  {
    if us != [] {
      EncodedLength(us[1..], size);
      assert |us| * size == size + |us[1..]| * size;
    }
  }

  lemma {:induction false} EncodedSplit(us: seq<Uuid>, k: nat)
    requires k < |us|
    ensures EncodedAll(us) == EncodedAll(us[..k]) + (Encoded(us[k]) + EncodedAll(us[k + 1..]))
  {
    var before, behind := us[..k], us[k + 1..];
    assert us == before + ([us[k]] + behind);
    EncodedConcat(before, [us[k]] + behind);
    assert ([us[k]] + behind)[1..] == behind;
  }

  lemma Middle(all: seq<byte>, a: seq<byte>, b: seq<byte>, c: seq<byte>)
    requires all == a + (b + c)
    ensures |a| + |b| <= |all| && all[|a|..|a| + |b|] == b
  {
  }

  lemma {:induction false} EncodedAt(us: seq<Uuid>, size: nat, k: nat)
    requires size in {2, 4, 16} && Uniform(us, size) && k < |us|
    ensures 0 <= k * size <= k * size + size <= |EncodedAll(us)|
    ensures EncodedAll(us)[k * size..k * size + size] == Encoded(us[k])
  {
    EncodedSplit(us, k);
    EncodedLength(us[..k], size);
    Middle(EncodedAll(us), EncodedAll(us[..k]), Encoded(us[k]), EncodedAll(us[k + 1..]));
  }

  lemma WholeElements(n: nat, size: nat)
    requires size in {2, 4, 16}
    ensures n * size % size == 0 && n * size / size == n
  {
    if size == 2 {
      assert n * 2 % 2 == 0 && n * 2 / 2 == n;
    } else if size == 4 {
      assert n * 4 % 4 == 0 && n * 4 / 4 == n;
    } else {
      assert n * 16 % 16 == 0 && n * 16 / 16 == n;
    }
  }

  lemma {:induction false} EncodedElement(us: seq<Uuid>, size: nat, k: nat)
    requires size in {2, 4, 16} && Uniform(us, size) && k < |us|
    ensures k < |EncodedAll(us)| / size && UuidAt(EncodedAll(us), size, k) == us[k]
  {
    EncodedLength(us, size);
    WholeElements(|us|, size);
    EncodedAt(us, size, k);
    UuidReadsBack(us[k]);
  }

  /** A list of UUIDs as it is advertised lists exactly these, whatever the width of the one looked for. */
  lemma {:induction false} EncodedLists(us: seq<Uuid>, size: nat, u: Uuid)
    requires size in {2, 4, 16} && Uniform(us, size)
    ensures |EncodedAll(us)| % size == 0
    ensures Lists(EncodedAll(us), size, u) <==> exists k | 0 <= k < |us| :: SameUuid(us[k], u)
  {
    EncodedLength(us, size);
    WholeElements(|us|, size);
    forall k | 0 <= k < |us|
      ensures UuidAt(EncodedAll(us), size, k) == us[k]
    {
      EncodedElement(us, size, k);
    }
    if k :| 0 <= k < |us| && SameUuid(us[k], u) {
      assert SameUuid(UuidAt(EncodedAll(us), size, k), u);
    }
  }

  /** The short forms of a UUID are the same as its long form, and different numbers are different UUIDs. */
  lemma {:induction false} WidthsAgree(v: uint16, w: uint32)
    ensures SameUuid(Uuid16(v), Uuid32(v)) && SameUuid(Uuid16(v), Uuid128(v, 0x1000_8000_0080_5F9B_34FB))
    ensures SameUuid(Uuid32(w), Uuid128(w, 0x1000_8000_0080_5F9B_34FB))
    ensures SameUuid(Uuid16(v), Uuid32(w)) <==> v == w
    ensures forall head: uint32, tail: nat :: SameUuid(Uuid32(w), Uuid128(head, tail)) <==>
                                              head == w && tail == 0x1000_8000_0080_5F9B_34FB
    ensures forall h: uint32, t: nat, i: uint32, j: nat :: SameUuid(Uuid128(h, t), Uuid128(i, j)) <==> h == i && t == j
  {
  }

  function KindOf(d: AdStruct): Kind
    requires d.kind != OtherType
  {
    match d.kind
    case NameComplete => NameKind
    case NameShortened => ShortNameKind
    case Appearance => AppearanceKind
    case Uuids(_) => UuidKind
    case Manufacturer => ManufacturerKind
  }

  /** Whether a structure satisfies the filters of its kind: any of them, except that match-all mode wants every
      listed UUID. */
  ghost predicate Satisfies(f: Filters, d: AdStruct)
    requires d.Valid() && d.kind != OtherType
  {
    match d.kind
    case NameComplete => exists i | 0 <= i < |f.names| :: SameName(f.names[i], d.data)
    case NameShortened =>
      exists i | 0 <= i < |f.shortNames| :: f.shortNames[i].1 <= |d.data| && SameName(f.shortNames[i].0, d.data)
    case Appearance => |d.data| == 2 && LittleEndian(d.data) in f.appearances
    case Uuids(size) =>
      if f.allMode then forall i | 0 <= i < |f.uuids| :: Lists(d.data, size, f.uuids[i])
      else exists i | 0 <= i < |f.uuids| :: Lists(d.data, size, f.uuids[i])
    case Manufacturer => exists i | 0 <= i < |f.manufacturers| :: f.manufacturers[i] <= d.data
  }

  /** A structure that raises the match counter. */
  ghost predicate Hit(f: Filters, d: AdStruct)
    requires d.Valid()
  {
    d.kind != OtherType && KindOf(d) in f.enabled && Satisfies(f, d)
  }

  // ---- the comparison loops ----

  /** strncmp(target, data, data_len) == 0, where `target` is followed by its terminator. */
  method NameCmp(data: seq<byte>, target: seq<byte>) returns (same: bool)
    requires 0 !in target
    ensures same <==> SameName(target, data)
  {
    var i := 0;
    while i < |data|
      invariant i <= |data| && i <= |target| && data[..i] == target[..i]
    {
      var t := if i < |target| then target[i] else 0;
      if t != data[i] {
        assert i < |target| ==> data[i] != target[i];
        assert i == |target| ==> (target + [0])[i] != data[i];
        return false;
      }
      if t == 0 {
        assert i == |target| && data[..i + 1] == target + [0];
        return true;
      }
      i := i + 1;
    }
    return true;
  }

  /** adv_name_compare. */
  method NameCompare(f: Filters, data: seq<byte>) returns (found: bool)
    requires f.Valid()
    ensures found <==> exists i | 0 <= i < |f.names| :: SameName(f.names[i], data)
  {
    for i := 0 to |f.names|
      invariant forall k | 0 <= k < i :: !SameName(f.names[k], data)
    {
      var same := NameCmp(data, f.names[i]);
      if same {
        return true;
      }
    }
    return false;
  }

  /** adv_short_name_compare. */
  method ShortNameCompare(f: Filters, data: seq<byte>) returns (found: bool)
    requires f.Valid()
    ensures found <==>
            exists i | 0 <= i < |f.shortNames| :: f.shortNames[i].1 <= |data| && SameName(f.shortNames[i].0, data)
  {
    for i := 0 to |f.shortNames|
      invariant forall k | 0 <= k < i :: !(f.shortNames[k].1 <= |data| && SameName(f.shortNames[k].0, data))
    {
      if |data| >= f.shortNames[i].1 {
        var same := NameCmp(data, f.shortNames[i].0);
        if same {
          return true;
        }
      }
    }
    return false;
  }

  lemma ElementFits(n: nat, size: nat, k: nat)
    requires size in {2, 4, 16} && n % size == 0
    ensures k * size < n <==> k < n / size
    ensures k * size < n ==> k * size + size == (k + 1) * size <= n
  {
    assert n == n / size * size;
  }

  /** find_uuid. */
  method FindUuid(data: seq<byte>, size: nat, u: Uuid) returns (found: bool)
    requires size in {2, 4, 16} && |data| % size == 0
    ensures found <==> Lists(data, size, u)
  {
    var i := 0;
    ghost var k := 0;
    while i < |data|
      invariant i == k * size && k <= |data| / size
      invariant forall n | 0 <= n < k :: !SameUuid(UuidAt(data, size, n), u)
      decreases |data| - i
    {
      ElementFits(|data|, size, k);
      if SameUuid(UuidOf(data[i..i + size]), u) {
        assert SameUuid(UuidAt(data, size, k), u);
        return true;
      }
      i := i + size;
      k := k + 1;
    }
    ElementFits(|data|, size, k);
    return false;
  }

  /** adv_uuid_compare. In match-all mode the count of found UUIDs has to reach the number of listed ones. */
  method UuidCompare(f: Filters, d: AdStruct) returns (found: bool)
    requires f.Valid() && d.Valid() && d.kind.Uuids?
    ensures found <==> Satisfies(f, d)
  {
    var size := d.kind.size;
    var matches: byte := 0;
    var i := 0;
    while i < |f.uuids|
      invariant matches <= i <= |f.uuids|
      invariant f.allMode ==> matches == i
      invariant forall n | 0 <= n < i :: f.allMode <==> Lists(d.data, size, f.uuids[n])
      invariant !f.allMode ==> matches == 0
    {
      var here := FindUuid(d.data, size, f.uuids[i]);
      if here {
        matches := matches + 1;
        if !f.allMode {
          break;
        }
      } else if f.allMode {
        break;
      }
      i := i + 1;
    }
    found := (f.allMode && matches == |f.uuids|) || (!f.allMode && matches > 0);
  }

  /** adv_appearance_compare. */
  method AppearanceCompare(f: Filters, data: seq<byte>) returns (found: bool)
    ensures found <==> |data| == 2 && LittleEndian(data) in f.appearances
  {
    for i := 0 to |f.appearances|
      invariant |data| == 2 ==> LittleEndian(data) !in f.appearances[..i]
    {
      if |data| == 2 && LittleEndian(data) == f.appearances[i] {
        return true;
      }
    }
    assert f.appearances[..|f.appearances|] == f.appearances;
    return false;
  }

  /** adv_manufacturer_data_compare. */
  method ManufacturerCompare(f: Filters, data: seq<byte>) returns (found: bool)
    ensures found <==> exists i | 0 <= i < |f.manufacturers| :: f.manufacturers[i] <= data
  {
    for i := 0 to |f.manufacturers|
      invariant forall k | 0 <= k < i :: !(f.manufacturers[k] <= data)
    {
      if |f.manufacturers[i]| <= |data| && f.manufacturers[i] == data[..|f.manufacturers[i]|] {
        return true;
      }
    }
    return false;
  }

  // ---- the scan control block ----

  lemma SixKinds(k: Kind)
    ensures k in {AddressKind, NameKind, ShortNameKind, UuidKind, AppearanceKind, ManufacturerKind}
  {
    match k {
      case AddressKind =>
      case _ =>
    }
  }

  datatype Decision = Matched | NotMatched | Ignored

  /** Structures that raise the counter. */
  ghost function Hits(f: Filters, ad: seq<AdStruct>): nat
    requires forall i | 0 <= i < |ad| :: ad[i].Valid()
  {
    if ad == [] then 0
    else Hits(f, ad[..|ad| - 1]) + (if Hit(f, ad[|ad| - 1]) then 1 else 0)
  }

  ghost function AddrHits(f: Filters, addr: Addr): nat {
    if AddressKind in f.enabled && addr in f.addrs then 1 else 0
  }

  /** scan_device_filter_check: neither on the blocklist nor out of connection attempts. */
  ghost predicate Allowed(blocklist: seq<Addr>, attempts: AttemptsFilter, addr: Addr)
    requires attempts.Valid()
    reads attempts, attempts.device
  {
    addr !in blocklist && !Exceeded(attempts.Queue(), attempts.limit, addr)
  }

  /** The report's fate, from the number of hits. */
  ghost function Decide(f: Filters, addr: Addr, ad: seq<AdStruct>, allowed: bool): Decision
    requires forall i | 0 <= i < |ad| :: ad[i].Valid()
  {
    var hits := AddrHits(f, addr) + Hits(f, ad);
    if !allowed then Ignored
    else if (if f.allMode then hits % 256 == |f.enabled| else hits > 0) then Matched
    else NotMatched
  }

  lemma CounterWraps(n: nat)
    ensures (n % 256 + 1) % 256 == (n + 1) % 256
  {
  }

  class ScanControl {
    var filterCnt: byte
    var filterMatchCnt: byte
    var filterMatch: bool

    constructor ()
      ensures filterCnt == 0 && filterMatchCnt == 0 && !filterMatch
    {
      filterCnt, filterMatchCnt, filterMatch := 0, 0, false;
    }

    /** One of the six counting steps; `done` are the kinds asked before. */
    method CountKind(f: Filters, k: Kind, ghost done: set<Kind>)
      requires k !in done && filterCnt == |f.enabled * done| < 255
      modifies this`filterCnt
      ensures filterCnt == |f.enabled * (done + {k})| <= old(filterCnt) + 1
    {
      if k in f.enabled {
        assert f.enabled * (done + {k}) == f.enabled * done + {k};
        filterCnt := filterCnt + 1;
      } else {
        assert f.enabled * (done + {k}) == f.enabled * done;
      }
    }

    /** check_enabled_filters. */
    method CheckEnabledFilters(f: Filters)
      modifies this`filterCnt
      ensures filterCnt == |f.enabled|
    {
      filterCnt := 0;
      assert f.enabled * {} == {};
      CountKind(f, AddressKind, {});
      CountKind(f, NameKind, {} + {AddressKind});
      CountKind(f, ShortNameKind, {} + {AddressKind} + {NameKind});
      CountKind(f, UuidKind, {} + {AddressKind} + {NameKind} + {ShortNameKind});
      CountKind(f, AppearanceKind, {} + {AddressKind} + {NameKind} + {ShortNameKind} + {UuidKind});
      ghost var five := {} + {AddressKind} + {NameKind} + {ShortNameKind} + {UuidKind} + {AppearanceKind};
      CountKind(f, ManufacturerKind, five);
      forall k | k in f.enabled
        ensures k in five + {ManufacturerKind}
      {
        SixKinds(k);
      }
      assert f.enabled * (five + {ManufacturerKind}) == f.enabled;
    }

    /** The counter is 8 bits wide. */
    method CountMatch()
      modifies this`filterMatchCnt, this`filterMatch
      ensures filterMatchCnt == (old(filterMatchCnt) + 1) % 256 && filterMatch
    {
      filterMatchCnt := (filterMatchCnt + 1) % 256;
      filterMatch := true;
    }

    /** check_addr. */
    method CheckAddr(f: Filters, addr: Addr)
      requires filterMatchCnt == 0 && !filterMatch
      modifies this`filterMatchCnt, this`filterMatch
      ensures filterMatchCnt == AddrHits(f, addr) && filterMatch == (AddrHits(f, addr) > 0)
    {
      if AddressKind in f.enabled {
        var found := false;
        for i := 0 to |f.addrs|
          invariant found <==> addr in f.addrs[..i]
        {
          found := found || f.addrs[i] == addr;
        }
        assert f.addrs[..|f.addrs|] == f.addrs;
        if found {
          CountMatch();
        }
      }
    }

    /** adv_data_found. */
    method AdvDataFound(f: Filters, d: AdStruct)
      requires f.Valid() && d.Valid()
      modifies this`filterMatchCnt, this`filterMatch
      ensures Hit(f, d) ==> filterMatchCnt == (old(filterMatchCnt) + 1) % 256 && filterMatch
      ensures !Hit(f, d) ==> filterMatchCnt == old(filterMatchCnt) && filterMatch == old(filterMatch)
    {
      var found := false;
      match d.kind {
        case NameComplete =>
          if NameKind in f.enabled {
            found := NameCompare(f, d.data);
          }
        case NameShortened =>
          if ShortNameKind in f.enabled {
            found := ShortNameCompare(f, d.data);
          }
        case Appearance =>
          if AppearanceKind in f.enabled {
            found := AppearanceCompare(f, d.data);
          }
        case Uuids(_) =>
          if UuidKind in f.enabled {
            found := UuidCompare(f, d);
          }
        case Manufacturer =>
          if ManufacturerKind in f.enabled {
            found := ManufacturerCompare(f, d.data);
          }
        case OtherType =>
      }
      if found {
        CountMatch();
      }
    }

    /** The loop of bt_data_parse. `before` is the number of hits so far. */
    method DataParse(f: Filters, ad: seq<AdStruct>, ghost before: nat)
      requires f.Valid() && forall i | 0 <= i < |ad| :: ad[i].Valid()
      requires filterMatchCnt == before % 256 && (filterMatch <==> before > 0)
      modifies this`filterMatchCnt, this`filterMatch
      ensures filterMatchCnt == (before + Hits(f, ad)) % 256 && (filterMatch <==> before + Hits(f, ad) > 0)
    {
      for i := 0 to |ad|
        invariant filterMatchCnt == (before + Hits(f, ad[..i])) % 256
        invariant filterMatch <==> before + Hits(f, ad[..i]) > 0
      {
        assert ad[..i + 1][..i] == ad[..i];
        CounterWraps(before + Hits(f, ad[..i]));
        AdvDataFound(f, ad[i]);
      }
      assert ad[..|ad|] == ad;
    }

    /** filter_state_check. */
    method FilterStateCheck(f: Filters, blocklist: seq<Addr>, attempts: AttemptsFilter, addr: Addr)
      returns (r: Decision)
      requires attempts.Valid()
      ensures r == if !Allowed(blocklist, attempts, addr) then Ignored
                   else if (if f.allMode then filterMatchCnt == filterCnt else filterMatch) then Matched
                   else NotMatched
    {
      var allowed := DeviceFilterCheck(blocklist, attempts, addr);
      if !allowed {
        return Ignored;
      }
      if f.allMode && filterMatchCnt == filterCnt {
        return Matched;
      } else if !f.allMode && filterMatch {
        return Matched;
      } else {
        return NotMatched;
      }
    }
  }

  /** scan_device_filter_check, with the search through the blocklist. */
  method DeviceFilterCheck(blocklist: seq<Addr>, attempts: AttemptsFilter, addr: Addr) returns (allowed: bool)
    requires attempts.Valid()
    ensures allowed <==> Allowed(blocklist, attempts, addr)
    ensures allowed <==> addr !in blocklist && !Exceeded(attempts.Queue(), attempts.limit, addr)
  {
    for i := 0 to |blocklist|
      invariant addr !in blocklist[..i]
    {
      if blocklist[i] == addr {
        return false;
      }
    }
    assert blocklist[..|blocklist|] == blocklist;
    var exceeded := attempts.AttemptsExceeded(addr);
    return !exceeded;
  }

  /** scan_recv: the address first, then the structures of the report. */
  method ScanRecv(f: Filters, blocklist: seq<Addr>, attempts: AttemptsFilter, addr: Addr, ad: seq<AdStruct>)
    returns (r: Decision)
    requires f.Valid() && attempts.Valid() && forall i | 0 <= i < |ad| :: ad[i].Valid()
    ensures r == Decide(f, addr, ad, Allowed(blocklist, attempts, addr))
    ensures r == Ignored <==> addr in blocklist || Exceeded(attempts.Queue(), attempts.limit, addr)
  {
    var control := new ScanControl();
    control.CheckEnabledFilters(f);
    control.CheckAddr(f, addr);
    control.DataParse(f, ad, AddrHits(f, addr));
    r := control.FilterStateCheck(f, blocklist, attempts, addr);
  }

  // ---- what the decision means ----

  /** The enabled kinds that the address or some structure satisfies. */
  ghost predicate KindSatisfied(f: Filters, addr: Addr, ad: seq<AdStruct>, k: Kind)
    requires forall i | 0 <= i < |ad| :: ad[i].Valid()
  {
    if k == AddressKind then addr in f.addrs
    else exists i | 0 <= i < |ad| :: ad[i].kind != OtherType && KindOf(ad[i]) == k && Satisfies(f, ad[i])
  }

  /** Normal mode: a match is reported exactly when some enabled kind of filter is satisfied. */
  lemma NormalModeIsAny(f: Filters, addr: Addr, ad: seq<AdStruct>)
    requires !f.allMode && forall i | 0 <= i < |ad| :: ad[i].Valid()
    ensures Decide(f, addr, ad, true) == Matched <==> exists k | k in f.enabled :: KindSatisfied(f, addr, ad, k)
  {
    HitsPositive(f, ad);
    if i :| 0 <= i < |ad| && Hit(f, ad[i]) {
      assert KindSatisfied(f, addr, ad, KindOf(ad[i]));
    }
  }

  /** With a single kind enabled and a single structure, in both modes: what each kind of filter looks for, and in which
      structures. */
  lemma {:induction false} OneStructure(f: Filters, addr: Addr, d: AdStruct)
    requires d.Valid()
    ensures var matched := Decide(f, addr, [d], true) == Matched;
            && (f.enabled == {AddressKind} ==> (matched <==> addr in f.addrs))
            && (f.enabled == {NameKind} ==>
                  (matched <==> d.kind == NameComplete
                                && exists i | 0 <= i < |f.names| :: SameName(f.names[i], d.data)))
            && (f.enabled == {ShortNameKind} ==>
                  (matched <==> d.kind == NameShortened
                                && exists i | 0 <= i < |f.shortNames| ::
                                     f.shortNames[i].1 <= |d.data| && SameName(f.shortNames[i].0, d.data)))
            && (f.enabled == {AppearanceKind} ==>
                  (matched <==> d.kind == Appearance && |d.data| == 2
                                && d.data[0] as int + 256 * d.data[1] as int in f.appearances))
            && (f.enabled == {UuidKind} ==>
                  (matched <==>
                     d.kind.Uuids?
                     && if f.allMode then forall i | 0 <= i < |f.uuids| :: Lists(d.data, d.kind.size, f.uuids[i])
                        else exists i | 0 <= i < |f.uuids| :: Lists(d.data, d.kind.size, f.uuids[i])))
            && (f.enabled == {ManufacturerKind} ==>
                  (matched <==> d.kind == Manufacturer
                                && exists i | 0 <= i < |f.manufacturers| :: f.manufacturers[i] <= d.data))
  {
    assert [d][..0] == [];
    assert Hits(f, [d]) == if Hit(f, d) then 1 else 0;
    if |d.data| == 2 {
      TwoBytes(d.data[0], d.data[1]);
      assert d.data == [d.data[0], d.data[1]];
    }
  }

  lemma {:induction false} HitsPositive(f: Filters, ad: seq<AdStruct>)
    requires forall i | 0 <= i < |ad| :: ad[i].Valid()
    ensures Hits(f, ad) > 0 <==> exists i | 0 <= i < |ad| :: Hit(f, ad[i])
  {
    if ad != [] {
      var init := ad[..|ad| - 1];
      HitsPositive(f, init);
      assert forall i | 0 <= i < |init| :: init[i] == ad[i];
    }
  }

  /** Two structures of one enabled kind that both satisfy its filters. */
  ghost predicate Doubled(f: Filters, ad: seq<AdStruct>)
    requires forall i | 0 <= i < |ad| :: ad[i].Valid()
  {
    exists i, j | 0 <= i < j < |ad| :: Hit(f, ad[i]) && Hit(f, ad[j]) && KindOf(ad[i]) == KindOf(ad[j])
  }

  ghost function HitKinds(f: Filters, ad: seq<AdStruct>): set<Kind>
    requires forall i | 0 <= i < |ad| :: ad[i].Valid()
  {
    set i | 0 <= i < |ad| && Hit(f, ad[i]) :: KindOf(ad[i])
  }

  /** Hits count kinds, once each unless one of them is doubled. */
  lemma {:induction false} HitsCountKinds(f: Filters, ad: seq<AdStruct>)
    requires forall i | 0 <= i < |ad| :: ad[i].Valid()
    ensures |HitKinds(f, ad)| <= Hits(f, ad) <= |ad|
    ensures Hits(f, ad) == |HitKinds(f, ad)| <==> !Doubled(f, ad)
  {
    if ad != [] {
      var init, d := ad[..|ad| - 1], ad[|ad| - 1];
      assert forall i | 0 <= i < |init| :: init[i] == ad[i];
      HitsCountKinds(f, init);
      OneMoreStructure(f, ad);
    }
  }

  lemma OneMoreStructure(f: Filters, ad: seq<AdStruct>)
    requires ad != [] && forall i | 0 <= i < |ad| :: ad[i].Valid()
    ensures var init, d := ad[..|ad| - 1], ad[|ad| - 1];
            && HitKinds(f, ad) == HitKinds(f, init) + (if Hit(f, d) then {KindOf(d)} else {})
            && (Doubled(f, ad) <==> Doubled(f, init) || (Hit(f, d) && KindOf(d) in HitKinds(f, init)))
  {
    var init, d := ad[..|ad| - 1], ad[|ad| - 1];
    assert forall i | 0 <= i < |init| :: init[i] == ad[i];
    if i, j :| 0 <= i < j < |init| && Hit(f, init[i]) && Hit(f, init[j]) && KindOf(init[i]) == KindOf(init[j]) {
      assert Hit(f, ad[i]) && Hit(f, ad[j]) && KindOf(ad[i]) == KindOf(ad[j]);
    }
    if Hit(f, d) && KindOf(d) in HitKinds(f, init) {
      var i :| 0 <= i < |init| && Hit(f, init[i]) && KindOf(init[i]) == KindOf(d);
      assert Hit(f, ad[i]) && Hit(f, ad[|ad| - 1]) && KindOf(ad[i]) == KindOf(ad[|ad| - 1]);
    }
  }

  lemma SubsetCardinality<T>(a: set<T>, b: set<T>)
    requires a <= b
    ensures |a| <= |b| && (|a| == |b| <==> a == b)
  {
    assert b == a + (b - a);
  }

  lemma EnabledKinds(f: Filters, addr: Addr, ad: seq<AdStruct>)
    requires forall i | 0 <= i < |ad| :: ad[i].Valid()
    ensures |HitKinds(f, ad)| + AddrHits(f, addr) <= |f.enabled|
    ensures |HitKinds(f, ad)| + AddrHits(f, addr) == |f.enabled| <==>
            forall k | k in f.enabled :: KindSatisfied(f, addr, ad, k)
  {
    var satisfied := HitKinds(f, ad) + (if AddrHits(f, addr) == 1 then {AddressKind} else {});
    assert AddressKind !in HitKinds(f, ad);
    assert |satisfied| == |HitKinds(f, ad)| + AddrHits(f, addr);
    assert satisfied <= f.enabled;
    assert forall k | k in f.enabled :: k in satisfied <==> KindSatisfied(f, addr, ad, k);
    SubsetCardinality(satisfied, f.enabled);
  }

  lemma SameModulo256(hits: nat, enabled: nat)
    requires enabled <= 6
    ensures hits % 256 == enabled <==> (hits - enabled) % 256 == 0
  {
  }

  lemma AtMostSix(kinds: set<Kind>)
    ensures |kinds| <= 6
  {
    forall k | k in kinds
      ensures k in {AddressKind, NameKind, ShortNameKind, UuidKind, AppearanceKind, ManufacturerKind}
    {
      SixKinds(k);
    }
    SubsetCardinality(kinds, {AddressKind, NameKind, ShortNameKind, UuidKind, AppearanceKind, ManufacturerKind});
  }

  /** Hits beyond the first of their kind. */
  ghost function Surplus(f: Filters, ad: seq<AdStruct>): (n: nat)
    requires forall i | 0 <= i < |ad| :: ad[i].Valid()
    ensures n == 0 <==> !Doubled(f, ad)
    ensures n <= |ad|
  {
    HitsCountKinds(f, ad);
    Hits(f, ad) - |HitKinds(f, ad)|
  }

  /** Enabled kinds that nothing satisfies. */
  ghost function Missing(f: Filters, addr: Addr, ad: seq<AdStruct>): (n: nat)
    requires forall i | 0 <= i < |ad| :: ad[i].Valid()
    ensures n == 0 <==> forall k | k in f.enabled :: KindSatisfied(f, addr, ad, k)
    ensures n <= 6
  {
    EnabledKinds(f, addr, ad);
    AtMostSix(f.enabled);
    |f.enabled| - |HitKinds(f, ad)| - AddrHits(f, addr)
  }

  /** Match-all mode, exactly: the counter reaches the number of enabled kinds if and only if the surplus makes up for
      the missing kinds, up to its 8 bits. So a match means that every enabled kind is satisfied, and its absence that
      one is not, exactly when nothing is missing and nothing surplus, or the surplus does not make up for what is
      missing, always up to the 8 bits. */
  lemma {:induction false} AllModeExactly(f: Filters, addr: Addr, ad: seq<AdStruct>)
    requires f.allMode && forall i | 0 <= i < |ad| :: ad[i].Valid()
    ensures Decide(f, addr, ad, true) == Matched <==> (Surplus(f, ad) - Missing(f, addr, ad)) % 256 == 0
    ensures var means := (Decide(f, addr, ad, true) == Matched <==>
                          forall k | k in f.enabled :: KindSatisfied(f, addr, ad, k));
            means <==> if Missing(f, addr, ad) == 0 then Surplus(f, ad) % 256 == 0
                       else (Surplus(f, ad) - Missing(f, addr, ad)) % 256 != 0
  {
    HitsCountKinds(f, ad);
    EnabledKinds(f, addr, ad);
    AtMostSix(f.enabled);
    var hits := AddrHits(f, addr) + Hits(f, ad);
    assert Surplus(f, ad) - Missing(f, addr, ad) == hits - |f.enabled|;
    SameModulo256(hits, |f.enabled|);
  }

  /** When every enabled kind is satisfied, a match is reported if and only if no kind is satisfied twice, as long as
      the counter cannot wrap. */
  lemma {:induction false} AllSatisfied(f: Filters, addr: Addr, ad: seq<AdStruct>)
    requires f.allMode && forall i | 0 <= i < |ad| :: ad[i].Valid()
    requires forall k | k in f.enabled :: KindSatisfied(f, addr, ad, k)
    ensures Decide(f, addr, ad, true) == Matched <==> Surplus(f, ad) % 256 == 0
    ensures |ad| < 256 ==> (Decide(f, addr, ad, true) == Matched <==> !Doubled(f, ad))
  {
    AllModeExactly(f, addr, ad);
  }

  /** Match-all mode with at most one structure of each kind: a match is reported exactly when every enabled kind
      is satisfied, for UUIDs by all that are listed. */
  lemma {:induction false} AllModeIsEvery(f: Filters, addr: Addr, ad: seq<AdStruct>)
    requires f.allMode && forall i | 0 <= i < |ad| :: ad[i].Valid()
    requires forall i, j | 0 <= i < j < |ad| :: ad[i].kind != OtherType && ad[j].kind != OtherType ==>
                                                  KindOf(ad[i]) != KindOf(ad[j])
    ensures Decide(f, addr, ad, true) == Matched <==> forall k | k in f.enabled :: KindSatisfied(f, addr, ad, k)
  {
    AllModeExactly(f, addr, ad);
    assert !Doubled(f, ad);
  }

  /** Both sides of the condition occur: here a doubled name stands in for the missing UUIDs. */
  lemma DoubledKindReplacesMissing(f: Filters, addr: Addr, name: AdStruct)
    requires f.allMode && f.enabled == {NameKind, UuidKind}
    requires name.kind == NameComplete && Satisfies(f, name)
    ensures Decide(f, addr, [name, name], true) == Matched && !KindSatisfied(f, addr, [name, name], UuidKind)
  {
    var ad := [name, name];
    assert ad[..1] == [name] && ad[..1][..0] == [];
    assert Hits(f, [name]) == 1;
  }
}
