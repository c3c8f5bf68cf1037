/** GeoIP entries: CIDR networks parsed from protobuf and compiled into prefix tries. */
module GeoIp {
  import opened Words
  import opened Wrappers
  import opened Bits
  import opened Protobuf
  import opened PrefixTrie

  datatype AssetError = Wire(cause: WireError) | InvalidCidr | TooManyNodes | InvalidUtf8 | MissingCode

  function Width(v6: bool): nat { if v6 then 128 else 32 }

  datatype IpNetwork = IpNetwork(v6: bool, network: nat, prefix: nat)

  datatype IpAddr = IpAddr(v6: bool, bits: nat)

  predicate WellFormedAddr(ip: IpAddr) { ip.bits < Pow2(Width(ip.v6)) }

  // ---- Masks ----

  /** Bitwise conjunction of two naturals. */
  function And(a: nat, b: nat): nat {
    if a == 0 then 0 else 2 * And(a / 2, b / 2) + (if a % 2 == 1 && b % 2 == 1 then 1 else 0)
  }

  /** `MAX << (width - prefix)` in a `width`-bit register, or zero for an empty prefix. */
  function Mask(width: nat, prefix: nat): nat
    requires prefix <= width
  {
    if prefix == 0 then 0 else (Pow2(width) - 1) * Pow2(width - prefix) % Pow2(width)
  }

  lemma {:induction false} Pow2Monotone(a: nat, b: nat)
    requires a <= b
    ensures Pow2(a) <= Pow2(b)
    decreases b
  {
    if a == b {
    } else {
      Pow2Monotone(a, b - 1);
    }
  }

  lemma ShiftedOnes(w: nat, h: nat)
    requires 1 <= h <= w
    ensures (w - 1) * h % w == w - h
  {
    if h < w || h == 1 {
      assert (w - 1) * h == (h - 1) * w + (w - h);
      DivModUnique((w - 1) * h, w, h - 1, w - h);
    } else {
      DivModUnique((w - 1) * h, w, w - 1, 0);
    }
  }

  lemma MaskValue(width: nat, prefix: nat)
    requires prefix <= width
    ensures Mask(width, prefix) == Pow2(width) - Pow2(width - prefix)
  {
    var w, h := Pow2(width), Pow2(width - prefix);
    Pow2Monotone(width - prefix, width);
    if prefix > 0 {
      ShiftedOnes(w, h);
    }
  }

  lemma AndOdd(a: nat, b: nat)
    requires a > 0
    ensures And(a, 2 * b + 1) == 2 * And(a / 2, b) + a % 2
  {
    assert (2 * b + 1) / 2 == b && (2 * b + 1) % 2 == 1;
  }

  lemma AndEven(a: nat, b: nat)
    requires a > 0
    ensures And(a, 2 * b) == 2 * And(a / 2, b)
  {
    assert 2 * b / 2 == b && 2 * b % 2 == 0;
  }

  lemma {:induction false} AndAllOnes(a: nat, width: nat)
    requires a < Pow2(width)
    ensures And(a, Pow2(width) - 1) == a
    decreases width
  {
    if a == 0 {
    } else {
      assert width > 0;
      AndAllOnes(a / 2, width - 1);
      AndOdd(a, Pow2(width - 1) - 1);
    }
  }

  lemma ModDouble(a: nat, d: nat)
    requires d >= 1
    ensures a % (2 * d) == 2 * (a / 2 % d) + a % 2
  {
    var q, r := a / 2 / d, a / 2 % d;
    assert a / 2 == q * d + r;
    assert a == q * (2 * d) + (2 * r + a % 2);
    DivModUnique(a, 2 * d, q, 2 * r + a % 2);
  }

  lemma HalfMask(width: nat, host: nat)
    requires 1 <= host <= width
    ensures Pow2(host - 1) <= Pow2(width - 1)
    ensures Pow2(width) - Pow2(host) == 2 * (Pow2(width - 1) - Pow2(host - 1))
  {
    Pow2Monotone(host - 1, width - 1);
  }

  /** `ones` has every bit from `host` up to `width` set, and `d` is one unit of them. */
  lemma {:induction false} AndHighBits(a: nat, width: nat, host: nat, d: nat, ones: nat)
    requires a < Pow2(width) && host <= width
    requires d == Pow2(host) && ones == Pow2(width) - d
    ensures And(a, ones) == a - a % d
    decreases host
  {
    if host == 0 {
      AndAllOnes(a, width);
    } else if a == 0 {
      SmallMod(0, d);
    } else {
      HalfMask(width, host);
      var half, rest := Pow2(host - 1), Pow2(width - 1) - Pow2(host - 1);
      AndHighBits(a / 2, width - 1, host - 1, half, rest);
      AndStep(a, rest, half);
    }
  }

  lemma AndStep(a: nat, b: nat, d: nat)
    requires a > 0 && d >= 1 && And(a / 2, b) == a / 2 - a / 2 % d
    ensures And(a, 2 * b) == a - a % (2 * d)
  {
    AndEven(a, b);
    ModDouble(a, d);
  }

  lemma SmallMod(a: nat, d: nat)
    requires a < d
    ensures a % d == a
  {
  }

  /** Masking an address with its network mask keeps exactly its leading bits. */
  lemma MaskKeepsTop(address: nat, value: nat, width: nat, prefix: nat)
    requires address < Pow2(width) && prefix <= width
    ensures And(address, Mask(width, prefix)) < Pow2(width)
    ensures AgreeTop(And(address, Mask(width, prefix)), value, width, prefix) <==>
            AgreeTop(address, value, width, prefix)
  {
    var d := Pow2(width - prefix);
    var masked := And(address, Mask(width, prefix));
    assert masked == address - address % d by {
      MaskValue(width, prefix);
      AndHighBits(address, width, width - prefix, d, Mask(width, prefix));
    }
    RoundedDown(address, d);
  }

  lemma RoundedDown(a: nat, d: nat)
    requires d >= 1
    ensures (a - a % d) / d == a / d
  {
    assert a - a % d == a / d * d;
    MultipleOf(a / d, d);
  }

  // ---- Networks ----

  /** The number whose big-endian bytes these are. */
  function BigEndian(bytes: Bytes): nat {
    if bytes == [] then 0 else 256 * BigEndian(bytes[..|bytes| - 1]) + bytes[|bytes| - 1]
  }

  lemma {:induction false} BigEndianFits(bytes: Bytes)
    ensures BigEndian(bytes) < Pow2(8 * |bytes|)
  {
    if bytes == [] {
    } else {
      var n := |bytes| - 1;
      BigEndianFits(bytes[..n]);
      Pow2Of8(8 * n);
    }
  }

  lemma Pow2Of8(n: nat)
    ensures Pow2(n + 8) == 256 * Pow2(n)
  {
    assert Pow2(n + 2) == 4 * Pow2(n);
    assert Pow2(n + 4) == 4 * Pow2(n + 2);
    assert Pow2(n + 6) == 4 * Pow2(n + 4);
    assert Pow2(n + 8) == 4 * Pow2(n + 6);
  }

  /** Byte i of an address is its i-th most significant byte. */
  lemma {:induction false} BigEndianAt(bytes: Bytes, i: nat)
    requires i < |bytes|
    ensures BigEndian(bytes) / Pow2(8 * (|bytes| - 1 - i)) % 256 == bytes[i]
    decreases bytes
  {
    var n := |bytes| - 1;
    var front, last := BigEndian(bytes[..n]), bytes[n];
    if i == n {
      DivModUnique(256 * front + last, 256, front, last);
    } else {
      BigEndianAt(bytes[..n], i);
      Pow2Of8(8 * (n - 1 - i));
      DropByte(front, last, Pow2(8 * (n - 1 - i)));
    }
  }

  lemma DropByte(front: nat, last: Byte, d: nat)
    requires d >= 1
    ensures (256 * front + last) / (256 * d) == front / d
  {
    var q := front / d;
    var r := front % d;
    assert front == q * d + r;
    assert 256 * front + last == q * (256 * d) + (256 * r + last);
    DivModUnique(256 * front + last, 256 * d, q, 256 * r + last);
  }

  /** Four bytes make an IPv4 network and sixteen an IPv6 one; host bits are masked away. */
  function NewNetwork(address: Bytes, prefix: nat): Result<IpNetwork, AssetError> {
    var v6 := |address| == 16;
    if 8 * |address| == Width(v6) && prefix <= Width(v6) then
      Ok(IpNetwork(v6, And(BigEndian(address), Mask(Width(v6), prefix)), prefix))
    else
      Err(InvalidCidr)
  }

  /** An address of four bytes takes a prefix of up to 32 bits, one of sixteen up to 128; no other fits. */
  predicate FitsFamily(address: Bytes, prefix: nat) {
    (|address| == 4 && prefix <= 32) || (|address| == 16 && prefix <= 128)
  }

  /** The address with every bit behind the prefix cleared: rounded down to a multiple of the block size. */
  function FirstOf(address: Bytes, prefix: nat): nat
    requires prefix <= 8 * |address|
  {
    RoundDown(BigEndian(address), Pow2(8 * |address| - prefix))
  }

  function RoundDown(x: nat, d: nat): nat
    requires d >= 1
  {
    MulMonotone(0, x / d, d);
    assert x == x / d * d + x % d;
    x - x % d
  }

  lemma MaskedIsFirst(address: Bytes, width: nat, prefix: nat)
    requires prefix <= width == 8 * |address|
    ensures And(BigEndian(address), Mask(width, prefix)) == FirstOf(address, prefix)
  {
    BigEndianFits(address);
    MaskValue(width, prefix);
    AndHighBits(BigEndian(address), width, width - prefix, Pow2(width - prefix), Mask(width, prefix));
  }

  /** Exactly those make a network: of that family and prefix, with every bit behind the prefix cleared. */
  lemma NetworkExactly(address: Bytes, prefix: nat)
    ensures NewNetwork(address, prefix) ==
            if FitsFamily(address, prefix) then Ok(IpNetwork(|address| == 16, FirstOf(address, prefix), prefix))
            else Err(InvalidCidr)
  {
    if FitsFamily(address, prefix) {
      MaskedIsFirst(address, Width(|address| == 16), prefix);
    }
  }

  // ---- CIDR messages ----

  /** The last byte field with this tag, as protobuf merges repeated occurrences. */
  function LastBlob(fs: seq<Field>, tag: nat): Option<Bytes> {
    if fs == [] then None
    else
      var f := fs[|fs| - 1];
      if f.tag == tag && f.value.Blob? then Some(f.value.bytes) else LastBlob(fs[..|fs| - 1], tag)
  }

  function LastVarint(fs: seq<Field>, tag: nat): nat {
    if fs == [] then 0
    else
      var f := fs[|fs| - 1];
      if f.tag == tag && f.value.Varint? then f.value.number else LastVarint(fs[..|fs| - 1], tag)
  }

  predicate IsBlob(f: Field, tag: nat) { f.tag == tag && f.value.Blob? }
  predicate IsVarint(f: Field, tag: nat) { f.tag == tag && f.value.Varint? }

  ghost predicate LastBlobAt(fs: seq<Field>, tag: nat, i: nat) {
    i < |fs| && IsBlob(fs[i], tag) && forall j :: i < j < |fs| ==> !IsBlob(fs[j], tag)
  }

  ghost predicate LastVarintAt(fs: seq<Field>, tag: nat, i: nat) {
    i < |fs| && IsVarint(fs[i], tag) && forall j :: i < j < |fs| ==> !IsVarint(fs[j], tag)
  }

  /** A repeated byte field counts with its last occurrence; other fields and other values do not matter. */
  lemma {:induction false} LastBlobExactly(fs: seq<Field>, tag: nat, i: nat)
    ensures LastBlobAt(fs, tag, i) ==> LastBlob(fs, tag) == Some(fs[i].value.bytes)
    ensures (forall j :: 0 <= j < |fs| ==> !IsBlob(fs[j], tag)) <==> LastBlob(fs, tag) == None
  {
    if fs == [] {
    } else {
      LastBlobExactly(fs[..|fs| - 1], tag, i);
      assert forall j :: 0 <= j < |fs| - 1 ==> fs[..|fs| - 1][j] == fs[j];
    }
  }

  /** A repeated number counts with its last occurrence, and is zero if there is none. */
  lemma {:induction false} LastVarintExactly(fs: seq<Field>, tag: nat, i: nat)
    ensures LastVarintAt(fs, tag, i) ==> LastVarint(fs, tag) == fs[i].value.number
    ensures (forall j :: 0 <= j < |fs| ==> !IsVarint(fs[j], tag)) ==> LastVarint(fs, tag) == 0
  {
    if fs == [] {
    } else {
      LastVarintExactly(fs[..|fs| - 1], tag, i);
      assert forall j :: 0 <= j < |fs| - 1 ==> fs[..|fs| - 1][j] == fs[j];
    }
  }

  function CidrOf(fs: seq<Field>): Result<IpNetwork, AssetError> {
    match LastBlob(fs, 1)
    case None => Err(InvalidCidr)
    case Some(address) => NewNetwork(address, LastVarint(fs, 2))
  }

  function Cidr(input: Bytes): Result<IpNetwork, AssetError> {
    match FieldsFrom(input, 0)
    case Err(e) => Err(Wire(e))
    case Ok(fs) => CidrOf(fs)
  }

  function CidrFields(address: Bytes, prefix: nat): seq<Field> {
    [Field(1, Blob(address)), Field(2, Varint(prefix))]
  }

  lemma CidrFieldsRead(address: Bytes, prefix: nat)
    ensures LastBlob(CidrFields(address, prefix), 1) == Some(address)
    ensures LastVarint(CidrFields(address, prefix), 2) == prefix
  {
    var fs := CidrFields(address, prefix);
    assert fs[..1] == [Field(1, Blob(address))];
  }

  /** A message with an address and a prefix length parses exactly when the two fit a family, and then to the
      network of that family and prefix with every bit behind the prefix cleared. */
  lemma CidrRoundTrip(address: Bytes, prefix: nat, input: Bytes)
    requires prefix <= U64_MAX && input == EncodeFields(CidrFields(address, prefix)) && |input| <= U64_MAX
    ensures Cidr(input) ==
            if (|address| == 4 && prefix <= 32) || (|address| == 16 && prefix <= 128) then
              Ok(IpNetwork(|address| == 16, FirstOf(address, prefix), prefix))
            else Err(InvalidCidr)
  {
    assert input[0..|input|] == input;
    MessageRoundTrip(input, 0, CidrFields(address, prefix));
    CidrFieldsRead(address, prefix);
    NetworkExactly(address, prefix);
  }

  /** Every message: it parses exactly when its fields do and its last address and last prefix fit a family. */
  lemma CidrExactly(input: Bytes)
    ensures match FieldsFrom(input, 0)
            case Err(e) => Cidr(input) == Err(Wire(e))
            case Ok(fs) =>
              && (Cidr(input).Ok? <==>
                  exists i: nat :: LastBlobAt(fs, 1, i) && FitsFamily(fs[i].value.bytes, LastVarint(fs, 2)))
              && (Cidr(input).Err? ==> Cidr(input).error == InvalidCidr)
  {
    if FieldsFrom(input, 0).Ok? {
      var fs := FieldsFrom(input, 0).value;
      if i: nat :| LastBlobAt(fs, 1, i) {
        LastBlobExactly(fs, 1, i);
        NetworkExactly(fs[i].value.bytes, LastVarint(fs, 2));
      } else {
        LastBlobFound(fs, 1, |fs|);
        LastBlobExactly(fs, 1, 0);
      }
      forall i: nat | LastBlobAt(fs, 1, i)
        ensures LastBlob(fs, 1) == Some(fs[i].value.bytes)
      {
        LastBlobExactly(fs, 1, i);
      }
    }
  }

  /** A byte field that occurs has a last occurrence. */
  lemma {:induction false} LastBlobFound(fs: seq<Field>, tag: nat, n: nat)
    requires n <= |fs| && forall j :: n <= j < |fs| ==> !IsBlob(fs[j], tag)
    ensures (exists i: nat :: LastBlobAt(fs, tag, i)) || forall j :: 0 <= j < |fs| ==> !IsBlob(fs[j], tag)
    decreases n
  {
    if n > 0 {
      if IsBlob(fs[n - 1], tag) {
        assert LastBlobAt(fs, tag, n - 1);
      } else {
        LastBlobFound(fs, tag, n - 1);
      }
    }
  }

  lemma FieldsSnoc(input: Bytes, cursor: nat, before: seq<Field>, f: Field, next: nat)
    requires cursor < |input| && FieldFrom(input, cursor) == Ok(Parsed(f, next))
    ensures match FieldsFrom(input, next)
            case Err(e) => FieldsFrom(input, cursor) == Err(e)
            case Ok(rest) =>
              FieldsFrom(input, cursor) == Ok([f] + rest) && before + ([f] + rest) == (before + [f]) + rest
  {
  }

  method ParseCidr(input: Bytes) returns (r: Result<IpNetwork, AssetError>)
    requires |input| <= U64_MAX
    ensures r == Cidr(input)
  {
    var address: Option<Bytes> := None;
    var prefix := 0;
    var reader := new ProtoReader(input);
    ghost var seen: seq<Field> := [];
    assert FieldsFrom(input, 0).Ok? ==> seen + FieldsFrom(input, 0).value == FieldsFrom(input, 0).value;
    while true
      invariant reader.Valid() && reader.input == input
      invariant match FieldsFrom(input, reader.cursor)
                case Err(e) => FieldsFrom(input, 0) == Err(e)
                case Ok(rest) => FieldsFrom(input, 0) == Ok(seen + rest)
      invariant address == LastBlob(seen, 1) && prefix == LastVarint(seen, 2)
      decreases |input| - reader.cursor
    {
      ghost var cursor := reader.cursor;
      var done, field := reader.Next();
      if done {
        break;
      }
      if field.Err? {
        return Err(Wire(field.error));
      }
      var f := field.value;
      FieldsSnoc(input, cursor, seen, f, reader.cursor);
      assert (seen + [f])[..|seen|] == seen;
      seen := seen + [f];
      if f.tag == 1 && f.value.Blob? {
        address := Some(f.value.bytes);
      } else if f.tag == 2 && f.value.Varint? {
        prefix := f.value.number;
      }
    }
    assert seen + [] == seen;
    if address.None? {
      return Err(InvalidCidr);
    }
    r := NewNetwork(address.value, prefix);
  }

  // ---- GeoIP entries ----

  datatype Entry = Entry(code: Option<Bytes>, networks: seq<Bytes>, reverse: bool)

  function Lower(text: Bytes): Bytes {
    seq(|text|, i requires 0 <= i < |text| => if 65 <= text[i] <= 90 then text[i] + 32 else text[i])
  }

  predicate IsCapital(b: Byte) { 'A' as int <= b <= 'Z' as int }
  predicate IsSmall(b: Byte) { 'a' as int <= b <= 'z' as int }

  /** The same letter in two cases. */
  predicate OtherCase(a: Byte, b: Byte) {
    (IsCapital(a) && IsSmall(b) && b - 'a' as int == a - 'A' as int)
    || (IsSmall(a) && IsCapital(b) && a - 'a' as int == b - 'A' as int)
  }

  lemma LowerAt(a: Bytes, b: Bytes, i: nat)
    requires i < |a| && i < |b|
    ensures !IsCapital(Lower(a)[i]) && (!IsCapital(a[i]) ==> Lower(a)[i] == a[i])
    ensures Lower(a)[i] == Lower(b)[i] <==> a[i] == b[i] || OtherCase(a[i], b[i])
  {
  }

  /** Lower-casing leaves no capital, changes nothing but capitals, and identifies exactly the texts that
      differ in case alone. */
  lemma LowerFoldsCase(a: Bytes, b: Bytes)
    ensures |Lower(a)| == |a|
    ensures forall i :: 0 <= i < |a| ==> !IsCapital(Lower(a)[i]) && (!IsCapital(a[i]) ==> Lower(a)[i] == a[i])
    ensures Lower(a) == Lower(b) <==>
            |a| == |b| && forall i :: 0 <= i < |a| ==> a[i] == b[i] || OtherCase(a[i], b[i])
  {
    forall i | 0 <= i < |a| && i < |b|
      ensures Lower(a)[i] == Lower(b)[i] <==> a[i] == b[i] || OtherCase(a[i], b[i])
    {
      LowerAt(a, b, i);
    }
    if |a| == |b| && forall i :: 0 <= i < |a| ==> a[i] == b[i] || OtherCase(a[i], b[i]) {
      assert forall i :: 0 <= i < |a| ==> Lower(a)[i] == Lower(b)[i];
    }
    if Lower(a) == Lower(b) {
      assert |a| == |Lower(a)| == |Lower(b)| == |b|;
    }
  }

  /** One field of an entry; text validity is decided by `utf8`. */
  function Absorb(utf8: Bytes -> bool, e: Entry, f: Field): Result<Entry, AssetError> {
    if f.tag == 1 && f.value.Blob? then
      if utf8(f.value.bytes) then Ok(e.(code := Some(Lower(f.value.bytes)))) else Err(InvalidUtf8)
    else if f.tag == 2 && f.value.Blob? then Ok(e.(networks := e.networks + [f.value.bytes]))
    else if f.tag == 3 && f.value.Varint? then Ok(e.(reverse := f.value.number != 0))
    else Ok(e)
  }

  function AbsorbAll(utf8: Bytes -> bool, e: Entry, fs: seq<Field>): Result<Entry, AssetError>
    decreases fs
  {
    if fs == [] then Ok(e)
    else
      match Absorb(utf8, e, fs[0])
      case Err(x) => Err(x)
      case Ok(e') => AbsorbAll(utf8, e', fs[1..])
  }

  /** Reads and absorbs field by field, stopping at the first error of either kind. */
  function ScanFrom(utf8: Bytes -> bool, input: Bytes, cursor: nat, e: Entry): Result<Entry, AssetError>
    requires cursor <= |input|
    decreases |input| - cursor
  {
    if cursor == |input| then Ok(e)
    else
      match FieldFrom(input, cursor)
      case Err(x) => Err(Wire(x))
      case Ok(p) =>
        match Absorb(utf8, e, p.item)
        case Err(x) => Err(x)
        case Ok(e') => ScanFrom(utf8, input, p.next, e')
  }

  function Scan(utf8: Bytes -> bool, input: Bytes): Result<Entry, AssetError> {
    match ScanFrom(utf8, input, 0, Entry(None, [], false))
    case Err(x) => Err(x)
    case Ok(e) => if e.code.Some? && e.code.value != [] then Ok(e) else Err(MissingCode)
  }

  method ScanGeoip(utf8: Bytes -> bool, input: Bytes) returns (r: Result<Entry, AssetError>)
    requires |input| <= U64_MAX
    ensures r == Scan(utf8, input)
  {
    var e := Entry(None, [], false);
    var reader := new ProtoReader(input);
    while true
      invariant reader.Valid() && reader.input == input
      invariant ScanFrom(utf8, input, 0, Entry(None, [], false)) == ScanFrom(utf8, input, reader.cursor, e)
      decreases |input| - reader.cursor
    {
      var done, field := reader.Next();
      if done {
        break;
      }
      if field.Err? {
        return Err(Wire(field.error));
      }
      var absorbed := Absorb(utf8, e, field.value);
      if absorbed.Err? {
        return Err(absorbed.error);
      }
      e := absorbed.value;
    }
    r := if e.code.Some? && e.code.value != [] then Ok(e) else Err(MissingCode);
  }

  lemma {:induction false} ScanIsFold(utf8: Bytes -> bool, input: Bytes, cursor: nat, e: Entry, fs: seq<Field>)
    requires cursor <= |input| && FieldsFrom(input, cursor) == Ok(fs)
    ensures ScanFrom(utf8, input, cursor, e) == AbsorbAll(utf8, e, fs)
    decreases |input| - cursor
  {
    if cursor == |input| {
    } else {
      var p := FieldFrom(input, cursor).value;
      assert fs[0] == p.item && FieldsFrom(input, p.next) == Ok(fs[1..]);
      match Absorb(utf8, e, p.item) {
        case Err(_) =>
        case Ok(e') => ScanIsFold(utf8, input, p.next, e', fs[1..]);
      }
    }
  }

  function NetworkFields(networks: seq<Bytes>): seq<Field> {
    seq(|networks|, i requires 0 <= i < |networks| => Field(2, Blob(networks[i])))
  }

  function EntryFields(code: Bytes, networks: seq<Bytes>, reverse: bool): seq<Field> {
    [Field(1, Blob(code))] + NetworkFields(networks) + [Field(3, Varint(if reverse then 1 else 0))]
  }

  lemma {:induction false} AbsorbNetworks(utf8: Bytes -> bool, e: Entry, networks: seq<Bytes>, rest: seq<Field>)
    ensures AbsorbAll(utf8, e, NetworkFields(networks) + rest) ==
            AbsorbAll(utf8, e.(networks := e.networks + networks), rest)
    decreases networks
  {
    if networks == [] {
      assert NetworkFields(networks) + rest == rest && e.networks + networks == e.networks;
    } else {
      var all := NetworkFields(networks) + rest;
      assert all[0] == Field(2, Blob(networks[0])) && all[1..] == NetworkFields(networks[1..]) + rest;
      assert (e.networks + [networks[0]]) + networks[1..] == e.networks + networks;
      AbsorbNetworks(utf8, e.(networks := e.networks + [networks[0]]), networks[1..], rest);
    }
  }

  /** An encoded entry scans to its lower-cased code, its networks in order, and its reverse flag. */
  lemma EntryAbsorbed(utf8: Bytes -> bool, code: Bytes, networks: seq<Bytes>, reverse: bool)
    requires code != [] && utf8(code)
    ensures AbsorbAll(utf8, Entry(None, [], false), EntryFields(code, networks, reverse)) ==
            Ok(Entry(Some(Lower(code)), networks, reverse))
  {
    var fs, flag := EntryFields(code, networks, reverse), [Field(3, Varint(if reverse then 1 else 0))];
    assert fs[1..] == NetworkFields(networks) + flag;
    AbsorbNetworks(utf8, Entry(Some(Lower(code)), [], false), networks, flag);
    assert [] + networks == networks && flag[1..] == [];
  }

  lemma GeoipRoundTrip(utf8: Bytes -> bool, code: Bytes, networks: seq<Bytes>, reverse: bool, input: Bytes)
    requires code != [] && utf8(code)
    requires input == EncodeFields(EntryFields(code, networks, reverse)) && |input| <= U64_MAX
    ensures Scan(utf8, input) == Ok(Entry(Some(Lower(code)), networks, reverse))
  {
    var fs := EntryFields(code, networks, reverse);
    assert FieldsFrom(input, 0) == Ok(fs) by {
      assert input[0..|input|] == input;
      MessageRoundTrip(input, 0, fs);
    }
    ScanIsFold(utf8, input, 0, Entry(None, [], false), fs);
    EntryAbsorbed(utf8, code, networks, reverse);
  }

  // ---- What an entry says, whatever its fields ----

  predicate TextsValid(utf8: Bytes -> bool, fs: seq<Field>) {
    forall i :: 0 <= i < |fs| && IsBlob(fs[i], 1) ==> utf8(fs[i].value.bytes)
  }

  /** All byte fields with this tag, in order. */
  function Blobs(fs: seq<Field>, tag: nat): seq<Bytes> {
    if fs == [] then []
    else
      var f := fs[|fs| - 1];
      Blobs(fs[..|fs| - 1], tag) + if IsBlob(f, tag) then [f.value.bytes] else []
  }

  lemma {:induction false} AbsorbSnoc(utf8: Bytes -> bool, e: Entry, fs: seq<Field>, f: Field)
    ensures AbsorbAll(utf8, e, fs + [f]) ==
            match AbsorbAll(utf8, e, fs)
            case Err(x) => Err(x)
            case Ok(e') => Absorb(utf8, e', f)
    decreases fs
  {
    if fs == [] {
      assert (fs + [f])[1..] == [];
    } else {
      assert (fs + [f])[1..] == fs[1..] + [f];
      match Absorb(utf8, e, fs[0]) {
        case Err(_) =>
        case Ok(e') => AbsorbSnoc(utf8, e', fs[1..], f);
      }
    }
  }

  /** The code is the last one given, lower-cased; the networks are all given, in order; the last flag counts. */
  lemma {:induction false} FieldsAbsorbed(utf8: Bytes -> bool, fs: seq<Field>)
    ensures AbsorbAll(utf8, Entry(None, [], false), fs) ==
            if !TextsValid(utf8, fs) then Err(InvalidUtf8)
            else
              var code := match LastBlob(fs, 1) case None => None case Some(text) => Some(Lower(text));
              Ok(Entry(code, Blobs(fs, 2), LastVarint(fs, 3) != 0))
    decreases fs
  {
    if fs == [] {
    } else {
      var front, f := fs[..|fs| - 1], fs[|fs| - 1];
      assert fs == front + [f];
      FieldsAbsorbed(utf8, front);
      AbsorbSnoc(utf8, Entry(None, [], false), front, f);
      assert TextsValid(utf8, fs) <==> TextsValid(utf8, front) && (IsBlob(f, 1) ==> utf8(f.value.bytes));
      assert Blobs(front, 2) + [] == Blobs(front, 2);
    }
  }

  lemma {:induction false} MalformedRefused(utf8: Bytes -> bool, input: Bytes, cursor: nat, e: Entry)
    requires cursor <= |input| && FieldsFrom(input, cursor).Err?
    ensures ScanFrom(utf8, input, cursor, e).Err?
    decreases |input| - cursor
  {
    var parsed := FieldFrom(input, cursor);
    if parsed.Ok? && Absorb(utf8, e, parsed.value.item).Ok? {
      MalformedRefused(utf8, input, parsed.value.next, Absorb(utf8, e, parsed.value.item).value);
    }
  }

  /**
   Every message: an entry needs well-formed fields, valid text in every code field and a last code that is
   not empty; it then has that code lower-cased, all its networks in order and the last reverse flag, and
   no other field matters.
   */
  lemma ScanExactly(utf8: Bytes -> bool, input: Bytes)
    ensures match FieldsFrom(input, 0)
            case Err(_) => Scan(utf8, input).Err?
            case Ok(fs) =>
              Scan(utf8, input) ==
              if !TextsValid(utf8, fs) then Err(InvalidUtf8)
              else
                match LastBlob(fs, 1)
                case None => Err(MissingCode)
                case Some(text) =>
                  if text == [] then Err(MissingCode)
                  else Ok(Entry(Some(Lower(text)), Blobs(fs, 2), LastVarint(fs, 3) != 0))
  {
    match FieldsFrom(input, 0) {
      case Err(_) => MalformedRefused(utf8, input, 0, Entry(None, [], false));
      case Ok(fs) =>
        ScanIsFold(utf8, input, 0, Entry(None, [], false), fs);
        FieldsAbsorbed(utf8, fs);
        assert LastBlob(fs, 1).Some? ==> |Lower(LastBlob(fs, 1).value)| == |LastBlob(fs, 1).value|;
    }
  }

  // ---- The compiled set against a linear scan ----

  /** The reference: the unmasked address of the message agrees with `ip` on the prefix. */
  predicate CidrCovers(encoded: Bytes, ip: IpAddr) {
    match FieldsFrom(encoded, 0)
    case Err(_) => false
    case Ok(fs) =>
      match LastBlob(fs, 1)
      case None => false
      case Some(address) =>
        && 8 * |address| == Width(ip.v6)
        && LastVarint(fs, 2) <= Width(ip.v6)
        && AgreeTop(BigEndian(address), ip.bits, Width(ip.v6), LastVarint(fs, 2))
  }

  predicate NetworkCovers(n: IpNetwork, ip: IpAddr) {
    n.v6 == ip.v6 && Matches(Block(n.network, n.prefix), Width(ip.v6), ip.bits)
  }

  lemma NewNetworkCovers(address: Bytes, prefix: nat, ip: IpAddr)
    requires NewNetwork(address, prefix).Ok?
    ensures var n := NewNetwork(address, prefix).value;
            && Fits(Block(n.network, n.prefix), Width(n.v6))
            && (NetworkCovers(n, ip) <==>
                8 * |address| == Width(ip.v6) && AgreeTop(BigEndian(address), ip.bits, Width(ip.v6), prefix))
  {
    var v6 := |address| == 16;
    BigEndianFits(address);
    MaskKeepsTop(BigEndian(address), ip.bits, Width(v6), prefix);
  }

  /** A parsed network covers exactly the addresses its message covers. */
  lemma CidrIsExact(encoded: Bytes, ip: IpAddr)
    requires Cidr(encoded).Ok?
    ensures var n := Cidr(encoded).value;
            Fits(Block(n.network, n.prefix), Width(n.v6)) && (NetworkCovers(n, ip) <==> CidrCovers(encoded, ip))
  {
    var fs := FieldsFrom(encoded, 0).value;
    NewNetworkCovers(LastBlob(fs, 1).value, LastVarint(fs, 2), ip);
  }

  /** The blocks of one family, in order. */
  function BlocksOf(networks: seq<Bytes>, v6: bool): seq<Block>
    requires forall n :: n in networks ==> Cidr(n).Ok?
  {
    if networks == [] then []
    else
      var last := Cidr(networks[|networks| - 1]).value;
      BlocksOf(networks[..|networks| - 1], v6) + (if last.v6 == v6 then [Block(last.network, last.prefix)] else [])
  }

  ghost predicate Listed(networks: seq<Bytes>, ip: IpAddr) {
    exists n :: n in networks && CidrCovers(n, ip)
  }

  lemma CoversSnoc(blocks: seq<Block>, b: Block, width: nat, value: nat)
    ensures Covers(blocks + [b], width, value) <==> Covers(blocks, width, value) || Matches(b, width, value)
  {
    forall x | x in blocks + [b]
      ensures x in blocks || x == b
    {
    }
    assert b in blocks + [b];
    if x :| x in blocks && Matches(x, width, value) {
      assert x in blocks + [b];
    }
  }

  lemma ListedSnoc(networks: seq<Bytes>, n: Bytes, ip: IpAddr)
    ensures Listed(networks + [n], ip) <==> Listed(networks, ip) || CidrCovers(n, ip)
  {
    forall x | x in networks + [n]
      ensures x in networks || x == n
    {
    }
    assert n in networks + [n];
    if x :| x in networks && CidrCovers(x, ip) {
      assert x in networks + [n];
    }
  }

  lemma {:induction false} BlocksAreExact(networks: seq<Bytes>, ip: IpAddr)
    requires forall n :: n in networks ==> Cidr(n).Ok?
    ensures Covers(BlocksOf(networks, ip.v6), Width(ip.v6), ip.bits) <==> Listed(networks, ip)
  {
    if networks == [] {
    } else {
      var front, last := networks[..|networks| - 1], networks[|networks| - 1];
      assert networks == front + [last];
      BlocksAreExact(front, ip);
      CidrIsExact(last, ip);
      ListedSnoc(front, last, ip);
      var n := Cidr(last).value;
      if n.v6 == ip.v6 {
        CoversSnoc(BlocksOf(front, ip.v6), Block(n.network, n.prefix), Width(ip.v6), ip.bits);
      } else {
        assert BlocksOf(networks, ip.v6) == BlocksOf(front, ip.v6);
      }
    }
  }

  /** The two tries hold exactly the networks compiled so far. */
  ghost predicate Compiled(ipv4: Trie, ipv6: Trie, networks: seq<Bytes>)
    reads ipv4, ipv6
  {
    && ipv4 != ipv6
    && ipv4.Valid() && ipv4.width == Width(false)
    && ipv6.Valid() && ipv6.width == Width(true)
    && (forall n :: n in networks ==> Cidr(n).Ok?)
    && ipv4.blocks == BlocksOf(networks, false)
    && ipv6.blocks == BlocksOf(networks, true)
  }

  class IpSet {
    const ipv4: Trie
    const ipv6: Trie
    const reverse: bool

    constructor (ipv4: Trie, ipv6: Trie, reverse: bool)
      ensures this.ipv4 == ipv4 && this.ipv6 == ipv6 && this.reverse == reverse
    {
      this.ipv4, this.ipv6, this.reverse := ipv4, ipv6, reverse;
    }

    /** Membership is a linear scan over the encoded networks, inverted if `reverse`. */
    method Contains(ip: IpAddr, ghost networks: seq<Bytes>) returns (matched: bool)
      requires Compiled(ipv4, ipv6, networks) && WellFormedAddr(ip)
      ensures matched <==> (Listed(networks, ip) != reverse)
    {
      var hit;
      if ip.v6 {
        hit := ipv6.Contains(ip.bits);
      } else {
        hit := ipv4.Contains(ip.bits);
      }
      BlocksAreExact(networks, ip);
      matched := hit != reverse;
    }
  }

  lemma BlocksSnoc(networks: seq<Bytes>, encoded: Bytes, v6: bool)
    requires (forall n :: n in networks ==> Cidr(n).Ok?) && Cidr(encoded).Ok?
    ensures forall n :: n in networks + [encoded] ==> Cidr(n).Ok?
    ensures var n := Cidr(encoded).value;
            BlocksOf(networks + [encoded], v6) ==
            BlocksOf(networks, v6) + if n.v6 == v6 then [Block(n.network, n.prefix)] else []
  {
    assert (networks + [encoded])[..|networks|] == networks;
  }

  // ---- Room in the arenas ----

  /** The nodes the networks of one family need: the root and every distinct prefix of a block. */
  ghost function NodesNeeded(networks: seq<Bytes>, v6: bool): nat
    requires forall n :: n in networks ==> Cidr(n).Ok?
  {
    |Prefixes(Ends(BlocksOf(networks, v6), Width(v6)))|
  }

  /** All networks parse, and both families fit their arena. */
  ghost predicate Compilable(networks: seq<Bytes>) {
    && (forall n :: n in networks ==> Cidr(n).Ok?)
    && NodesNeeded(networks, false) <= MAX_NODES && NodesNeeded(networks, true) <= MAX_NODES
  }

  lemma NothingNeeded()
    ensures Compilable([])
  {
    assert Ends([], Width(false)) == {} == Ends([], Width(true));
    assert Prefixes({}) == {[]};
  }

  /** What one network more needs: nothing for the other family, at most its prefix for its own. */
  lemma NeededSnoc(networks: seq<Bytes>, encoded: Bytes, v6: bool)
    requires (forall n :: n in networks ==> Cidr(n).Ok?) && Cidr(encoded).Ok?
    ensures forall n :: n in networks + [encoded] ==> Cidr(n).Ok?
    ensures var n := Cidr(encoded).value;
            && NodesNeeded(networks, v6) <= NodesNeeded(networks + [encoded], v6)
            && NodesNeeded(networks + [encoded], v6) <= NodesNeeded(networks, v6) + (if n.v6 == v6 then n.prefix else 0)
  {
    BlocksSnoc(networks, encoded, v6);
    var n, blocks, width := Cidr(encoded).value, BlocksOf(networks, v6), Width(v6);
    if n.v6 == v6 {
      var block := Block(n.network, n.prefix);
      CidrIsExact(encoded, IpAddr(n.v6, 0));
      EndsSnoc(blocks, block, width);
      PrefixesGrow(Ends(blocks, width), Ends(blocks + [block], width));
      SubsetSize(Prefixes(Ends(blocks, width)), Prefixes(Ends(blocks + [block], width)));
      PrefixesOfOneMore(Ends(blocks, width), PathOf(block, width));
    } else {
      assert BlocksOf(networks + [encoded], v6) == blocks;
    }
  }

  /** One network more is compilable exactly when its own family still fits. */
  lemma CompilableSnoc(networks: seq<Bytes>, encoded: Bytes, n: IpNetwork)
    requires Compilable(networks) && Cidr(encoded) == Ok(n)
    ensures forall m :: m in networks + [encoded] ==> Cidr(m).Ok?
    ensures Compilable(networks + [encoded]) <==> NodesNeeded(networks + [encoded], n.v6) <= MAX_NODES
  {
    NeededSnoc(networks, encoded, !n.v6);
  }

  lemma FrontCompilable(front: seq<Bytes>, last: Bytes)
    requires Compilable(front + [last])
    ensures Compilable(front)
  {
    assert forall n :: n in front + [last] ==> Cidr(n).Ok?;
    assert last in front + [last] && forall n :: n in front ==> n in front + [last];
    NeededSnoc(front, last, false);
    NeededSnoc(front, last, true);
  }

  /** The first networks of a compilable list are compilable. */
  lemma {:induction false} CompilablePrefix(networks: seq<Bytes>, k: nat)
    requires k <= |networks| && Compilable(networks)
    ensures Compilable(networks[..k])
  {
    if k == |networks| {
      assert networks[..k] == networks;
    } else {
      var front, last := networks[..|networks| - 1], networks[|networks| - 1];
      assert Compilable(front) by {
        assert networks == front + [last];
        FrontCompilable(front, last);
      }
      CompilablePrefix(front, k);
      assert front[..k] == networks[..k];
    }
  }

  /** The prefix lengths of the networks, added up. */
  function Weight(networks: seq<Bytes>): nat {
    if networks == [] then 0
    else
      var last := Cidr(networks[|networks| - 1]);
      Weight(networks[..|networks| - 1]) + if last.Ok? then last.value.prefix else 0
  }

  lemma {:induction false} WeightSuffices(networks: seq<Bytes>, v6: bool)
    requires forall n :: n in networks ==> Cidr(n).Ok?
    ensures NodesNeeded(networks, v6) <= 1 + Weight(networks)
  {
    if networks == [] {
      NothingNeededBy(v6);
    } else {
      var front, last := networks[..|networks| - 1], networks[|networks| - 1];
      assert networks == front + [last] && last in networks;
      WeightSuffices(front, v6);
      NeededSnoc(front, last, v6);
    }
  }

  lemma NothingNeededBy(v6: bool)
    ensures NodesNeeded([], v6) == 1
  {
    assert Ends([], Width(v6)) == {};
    assert Prefixes({}) == {[]};
  }

  /** Every well-formed list whose prefix lengths add up to a 32-bit number is compilable. */
  lemma SmallListsCompile(networks: seq<Bytes>)
    requires (forall n :: n in networks ==> Cidr(n).Ok?) && Weight(networks) <= U32_MAX
    ensures Compilable(networks)
  {
    WeightSuffices(networks, false);
    WeightSuffices(networks, true);
  }

  // ---- Compiling ----

  /** Compiled, with no node in either arena but those the networks need. */
  ghost predicate Packed(ipv4: Trie, ipv6: Trie, networks: seq<Bytes>)
    reads ipv4, ipv6
  {
    Compiled(ipv4, ipv6, networks) && ipv4.Exact() && ipv6.Exact()
  }

  /** Adds one network to the trie of its family; refused exactly when that family then needs too many nodes. */
  method AddNetwork(ipv4: Trie, ipv6: Trie, n: IpNetwork, ghost networks: seq<Bytes>, ghost encoded: Bytes)
    returns (stored: Inserted)
    requires Packed(ipv4, ipv6, networks) && Cidr(encoded) == Ok(n)
    modifies ipv4, ipv6
    ensures forall m :: m in networks + [encoded] ==> Cidr(m).Ok?
    ensures stored == Stored ==> Packed(ipv4, ipv6, networks + [encoded])
    ensures stored == TooManyNetworks ==> Compiled(ipv4, ipv6, networks)
    ensures stored == Stored <==> NodesNeeded(networks + [encoded], n.v6) <= MAX_NODES
  {
    CidrIsExact(encoded, IpAddr(n.v6, 0));
    BlocksSnoc(networks, encoded, false);
    BlocksSnoc(networks, encoded, true);
    if n.v6 {
      stored := ipv6.Insert(n.network, n.prefix);
    } else {
      stored := ipv4.Insert(n.network, n.prefix);
    }
  }

  /** The earliest network that does not parse fails with this error. */
  ghost predicate FirstMalformed(networks: seq<Bytes>, e: AssetError) {
    exists i :: 0 <= i < |networks| && Cidr(networks[i]) == Err(e) && forall n :: n in networks[..i] ==> Cidr(n).Ok?
  }

  lemma MalformedAt(networks: seq<Bytes>, i: nat)
    requires i < |networks| && Cidr(networks[i]).Err? && forall n :: n in networks[..i] ==> Cidr(n).Ok?
    ensures FirstMalformed(networks, Cidr(networks[i]).error)
  {
  }

  /** The first k networks parse, but need more nodes than an arena holds. */
  ghost predicate Exhausts(networks: seq<Bytes>, k: nat) {
    k <= |networks| && (forall n :: n in networks[..k] ==> Cidr(n).Ok?) && !Compilable(networks[..k])
  }

  /** A network cannot be added to those before it. */
  ghost predicate Refused(before: seq<Bytes>, encoded: Bytes, e: AssetError) {
    if Cidr(encoded).Err? then e == Cidr(encoded).error else e == TooManyNodes && !Compilable(before + [encoded])
  }

  /** Adds the next network of a list, or says why that is impossible. */
  method AddNext(ipv4: Trie, ipv6: Trie, ghost before: seq<Bytes>, encoded: Bytes) returns (failure: Option<AssetError>)
    requires |encoded| <= U64_MAX && Packed(ipv4, ipv6, before) && Compilable(before)
    modifies ipv4, ipv6
    ensures failure.None? ==> Packed(ipv4, ipv6, before + [encoded]) && Compilable(before + [encoded])
    ensures failure.Some? ==> Refused(before, encoded, failure.value)
  {
    var parsed := ParseCidr(encoded);
    if parsed.Err? {
      return Some(parsed.error);
    }
    CompilableSnoc(before, encoded, parsed.value);
    var stored := AddNetwork(ipv4, ipv6, parsed.value, before, encoded);
    return if stored == Stored then None else Some(TooManyNodes);
  }

  lemma SnocParses(before: seq<Bytes>, encoded: Bytes)
    requires Compilable(before) && Cidr(encoded).Ok?
    ensures forall n :: n in before + [encoded] ==> Cidr(n).Ok?
  {
  }

  /** `before` is the first i networks. */
  ghost predicate Starts(networks: seq<Bytes>, before: seq<Bytes>, i: nat) {
    |before| == i <= |networks| && forall j :: 0 <= j < i ==> before[j] == networks[j]
  }

  lemma StartsNext(networks: seq<Bytes>, before: seq<Bytes>, i: nat)
    requires i < |networks| && Starts(networks, before, i)
    ensures Starts(networks, before + [networks[i]], i + 1)
  {
  }

  lemma StartsWhole(networks: seq<Bytes>, before: seq<Bytes>)
    requires Starts(networks, before, |networks|)
    ensures before == networks
  {
  }

  lemma MalformedNext(networks: seq<Bytes>, before: seq<Bytes>, i: nat)
    requires i < |networks| && Starts(networks, before, i) && Cidr(networks[i]).Err?
    requires forall n :: n in before ==> Cidr(n).Ok?
    ensures !Compilable(networks) && FirstMalformed(networks, Cidr(networks[i]).error)
  {
    assert before == networks[..i] && networks[i] in networks;
    MalformedAt(networks, i);
  }

  lemma ExhaustedNext(networks: seq<Bytes>, before: seq<Bytes>, i: nat)
    requires i < |networks| && Starts(networks, before, i)
    requires (forall n :: n in before + [networks[i]] ==> Cidr(n).Ok?) && !Compilable(before + [networks[i]])
    ensures !Compilable(networks) && Exhausts(networks, i + 1)
  {
    assert before + [networks[i]] == networks[..i + 1];
    ExhaustedAt(networks, before + [networks[i]], i + 1);
  }

  /** A list whose next network is refused is not compilable, and the refusal says why. */
  lemma RefusedExactly(networks: seq<Bytes>, before: seq<Bytes>, i: nat, e: AssetError)
    requires i < |networks| && Starts(networks, before, i) && Compilable(before) && Refused(before, networks[i], e)
    ensures !Compilable(networks) && Blames(networks, e)
  {
    if Cidr(networks[i]).Err? {
      MalformedNext(networks, before, i);
    } else {
      SnocParses(before, networks[i]);
      ExhaustedNext(networks, before, i);
    }
  }

  lemma ExhaustedAt(networks: seq<Bytes>, longer: seq<Bytes>, k: nat)
    requires k <= |networks| && longer == networks[..k]
    requires (forall n :: n in longer ==> Cidr(n).Ok?) && !Compilable(longer)
    ensures !Compilable(networks) && Exhausts(networks, k)
  {
    if Compilable(networks) {
      CompilablePrefix(networks, k);
    }
  }

  /** Why a list cannot be compiled. */
  ghost predicate Blames(networks: seq<Bytes>, e: AssetError) {
    (e == TooManyNodes && exists k :: Exhausts(networks, k)) || FirstMalformed(networks, e)
  }

  /** Adds all networks in order, up to the first that is refused. */
  method Fill(ipv4: Trie, ipv6: Trie, networks: seq<Bytes>) returns (failure: Option<AssetError>)
    requires forall i :: 0 <= i < |networks| ==> |networks[i]| <= U64_MAX
    requires Packed(ipv4, ipv6, []) && Compilable([])
    modifies ipv4, ipv6
    ensures failure.None? ==> Packed(ipv4, ipv6, networks) && Compilable(networks)
    ensures failure.Some? ==> !Compilable(networks) && Blames(networks, failure.value)
  {
    var i := 0;
    ghost var before: seq<Bytes> := [];
    while i < |networks|
      invariant 0 <= i <= |networks| && Starts(networks, before, i)
      invariant Packed(ipv4, ipv6, before) && Compilable(before)
    {
      failure := AddNext(ipv4, ipv6, before, networks[i]);
      if failure.Some? {
        RefusedExactly(networks, before, i, failure.value);
        return;
      }
      StartsNext(networks, before, i);
      before := before + [networks[i]];
      i := i + 1;
    }
    StartsWhole(networks, before);
    return None;
  }

  /** Compiles networks in order, which succeeds exactly for a compilable list; the error is the first
      malformed network's, or that of an exhausted arena. */
  method Compile(networks: seq<Bytes>, reverse: bool) returns (r: Result<IpSet, AssetError>)
    requires forall i :: 0 <= i < |networks| ==> |networks[i]| <= U64_MAX
    ensures r.Ok? <==> Compilable(networks)
    ensures r.Ok? ==> fresh(r.value) && Compiled(r.value.ipv4, r.value.ipv6, networks) && r.value.reverse == reverse
    ensures r.Err? ==> Blames(networks, r.error)
  {
    var ipv4 := new Trie(Width(false));
    var ipv6 := new Trie(Width(true));
    NothingNeeded();
    var failure := Fill(ipv4, ipv6, networks);
    if failure.Some? {
      return Err(failure.value);
    }
    var ips := new IpSet(ipv4, ipv6, reverse);
    r := Ok(ips);
  }
}
