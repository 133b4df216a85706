/** Address arithmetic: the in-place increment, subnet membership and the range test. */
module Address {
  import opened Wrappers

  // ---- Addresses as numbers ----

  function Pow256(n: nat): (p: nat)
    ensures p > 0
  {
    if n == 0 then 1 else 256 * Pow256(n - 1)
  }

  function Digit(b: bv8): (d: nat)
    ensures d < 256
  {
    b as nat
  }

  function Digits(ip: Bytes): (ds: seq<nat>)
    ensures |ds| == |ip|
    ensures forall i :: 0 <= i < |ip| ==> ds[i] == Digit(ip[i])
  {
    seq(|ip|, i requires 0 <= i < |ip| => Digit(ip[i]))
  }

  /** Base-256 notation, most significant digit first. */
  function Number(ds: seq<nat>): nat {
    if ds == [] then 0 else Number(ds[..|ds| - 1]) * 256 + ds[|ds| - 1]
  }

  /** The number an address stands for. */
  function Value(ip: Bytes): nat {
    Number(Digits(ip))
  }

  predicate Base256(ds: seq<nat>) {
    forall i :: 0 <= i < |ds| ==> ds[i] < 256
  }

  lemma {:induction false} NumberBound(ds: seq<nat>)
    requires Base256(ds)
    ensures Number(ds) < Pow256(|ds|)
  {
    if ds != [] {
      NumberBound(ds[..|ds| - 1]);
    }
  }

  lemma Regroup(x: nat, p: nat, mid: nat, last: nat)
    ensures (x * p + mid) * 256 + last == x * (256 * p) + (mid * 256 + last)
  {
  }

  lemma {:induction false} NumberCons(ds: seq<nat>)
    requires ds != []
    ensures Number(ds) == ds[0] * Pow256(|ds| - 1) + Number(ds[1..])
  {
    if |ds| == 1 {
      assert ds[..0] == [];
    } else {
      var front, tail := ds[..|ds| - 1], ds[1..];
      NumberCons(front);
      assert tail[..|tail| - 1] == front[1..];
      Regroup(ds[0], Pow256(|ds| - 2), Number(front[1..]), ds[|ds| - 1]);
    }
  }

  lemma DigitOrder(a: bv8, b: bv8)
    ensures a < b <==> Digit(a) < Digit(b)
    ensures a == b <==> Digit(a) == Digit(b)
  {
  }

  lemma FirstDigitDecides(x: nat, y: nat, r: nat, q: nat, p: nat)
    requires x < y && r < p
    ensures x * p + r < y * p + q
  {
    assert (x + 1) * p <= y * p;
  }

  /** Comparing two numerals digit by digit. */
  lemma NumeralOrder(a: seq<nat>, b: seq<nat>)
    requires |a| == |b| > 0 && Base256(a) && Base256(b)
    ensures Number(a) < Number(b) <==> a[0] < b[0] || (a[0] == b[0] && Number(a[1..]) < Number(b[1..]))
    ensures Number(a) == Number(b) <==> a[0] == b[0] && Number(a[1..]) == Number(b[1..])
  {
    NumberCons(a);
    NumberCons(b);
    NumberBound(a[1..]);
    NumberBound(b[1..]);
    var p := Pow256(|a| - 1);
    if a[0] < b[0] {
      FirstDigitDecides(a[0], b[0], Number(a[1..]), Number(b[1..]), p);
    } else if b[0] < a[0] {
      FirstDigitDecides(b[0], a[0], Number(b[1..]), Number(a[1..]), p);
    }
  }

  lemma FirstByteOrder(a: Bytes, b: Bytes)
    requires |a| == |b| > 0
    ensures Value(a) < Value(b) <==> a[0] < b[0] || (a[0] == b[0] && Value(a[1..]) < Value(b[1..]))
    ensures Value(a) == Value(b) <==> a[0] == b[0] && Value(a[1..]) == Value(b[1..])
  {
    NumeralOrder(Digits(a), Digits(b));
    DigitOrder(a[0], b[0]);
    assert Digits(a)[1..] == Digits(a[1..]) && Digits(b)[1..] == Digits(b[1..]);
  }

  /** Address order is the order of the numbers, and the number determines the address. */
  lemma {:induction false} LexIsNumeric(a: Bytes, b: Bytes)
    requires |a| == |b|
    ensures Lex(a, b) <==> Value(a) < Value(b)
    ensures Value(a) == Value(b) <==> a == b
    decreases |a|
  {
    hide Value;
    if a != [] {
      LexIsNumeric(a[1..], b[1..]);
      FirstByteOrder(a, b);
      assert a == [a[0]] + a[1..] && b == [b[0]] + b[1..];
    }
  }

  // ---- incrementIP ----

  /** Adding one with carry from the last byte. */
  function Increment(ip: Bytes): (r: Bytes)
    ensures |r| == |ip|
  {
    if ip == [] then []
    else if ip[|ip| - 1] == 255 then Increment(ip[..|ip| - 1]) + [0]
    else ip[|ip| - 1 := ip[|ip| - 1] + 1]
  }

  lemma LastDigit(ip: Bytes)
    requires ip != []
    ensures Value(ip) == Value(ip[..|ip| - 1]) * 256 + Digit(ip[|ip| - 1])
  {
    assert Digits(ip)[..|ip| - 1] == Digits(ip[..|ip| - 1]);
  }

  /** Increment adds one, and wraps to zero after the last address. */
  lemma {:induction false} IncrementAddsOne(ip: Bytes)
    ensures Value(ip) < Pow256(|ip|)
    ensures Value(Increment(ip)) == if Value(ip) + 1 < Pow256(|ip|) then Value(ip) + 1 else 0
    decreases |ip|
  {
    if ip != [] {
      var k := |ip| - 1;
      var next := Increment(ip);
      LastDigit(ip);
      LastDigit(next);
      DigitStep(ip[k]);
      IncrementAddsOne(ip[..k]);
      if ip[k] == 255 {
        assert next[..k] == Increment(ip[..k]) && next[k] == 0;
      } else {
        assert next[..k] == ip[..k];
      }
    }
  }

  lemma DigitStep(b: bv8)
    ensures b != 255 ==> Digit(b + 1) == Digit(b) + 1
    ensures Digit(0) == 0 && Digit(255) == 255
    ensures b != 255 ==> Digit(b) < 255
  {
  }

  lemma {:induction false} IncrementAt(ip: Bytes, i: int)
    requires -1 <= i < |ip| && forall j :: i < j < |ip| ==> ip[j] == 255
    requires i >= 0 ==> ip[i] != 255
    ensures forall j :: 0 <= j < |ip| ==> Increment(ip)[j] == if j < i then ip[j] else if j == i then ip[j] + 1 else 0
    decreases |ip|
  {
    if i < |ip| - 1 {
      IncrementAt(ip[..|ip| - 1], i);
    }
  }

  /** incrementIP: clones the address and carries in place; the argument is not changed. */
  method IncrementIP(ip: array<bv8>) returns (r: array<bv8>)
    ensures fresh(r) && r[..] == Increment(ip[..])
  {
    hide Increment;
    r := new bv8[ip.Length](i requires 0 <= i < ip.Length reads ip => ip[i]);
    var i := ip.Length - 1;
    while i >= 0
      invariant -1 <= i < ip.Length && r.Length == ip.Length
      invariant forall j :: 0 <= j <= i ==> r[j] == ip[j]
      invariant forall j :: i < j < ip.Length ==> ip[j] == 255 && r[j] == 0
    {
      r[i] := r[i] + 1;
      if r[i] != 0 {
        break;
      }
      i := i - 1;
    }
    IncrementAt(ip[..], i);
    assert forall j :: 0 <= j < ip.Length ==> r[..][j] == Increment(ip[..])[j];
  }

  // ---- Subnets ----

  datatype IPNet = IPNet(ip: Bytes, mask: Bytes)

  /** The four bytes of an IPv4 address, in short or in IPv4-mapped form. */
  function To4(ip: Bytes): Option<Bytes> {
    if |ip| == 4 then Some(ip)
    else if |ip| == 16 && (forall i :: 0 <= i < 10 ==> ip[i] == 0) && ip[10] == 255 && ip[11] == 255 then Some(ip[12..])
    else None
  }

  /** The network number and mask of a network in matching lengths; empty when they do not fit. */
  function NumberAndMask(n: IPNet): (Bytes, Bytes) {
    var ip := if To4(n.ip).Some? then To4(n.ip).value else n.ip;
    if |ip| != 4 && |ip| != 16 then ([], [])
    else if |n.mask| == |ip| then (ip, n.mask)
    else if |n.mask| == 16 && |ip| == 4 then (ip, n.mask[12..])
    else ([], [])
  }

  predicate Agree(a: bv8, b: bv8, m: bv8) {
    a & m == b & m
  }

  /** Two addresses agree in every bit of the mask. */
  predicate SameNetwork(a: Bytes, b: Bytes, mask: Bytes)
    requires |a| == |b| == |mask|
  {
    forall i :: 0 <= i < |a| ==> Agree(a[i], b[i], mask[i])
  }

  predicate Contains(n: IPNet, ip: Bytes) {
    var (number, mask) := NumberAndMask(n);
    var ip := if To4(ip).Some? then To4(ip).value else ip;
    |ip| == |number| == |mask| && SameNetwork(number, ip, mask)
  }

  /** An address in four or sixteen bytes, and its short form: the four bytes of an IPv4 address, however it is written. */
  predicate Written(ip: Bytes, short: Bytes) {
    || (|short| == 4 && (ip == short || ip == [0, 0, 0, 0, 0, 0, 0, 0, 0, 0, 255, 255] + short))
    || (|short| == 16 && ip == short && ip[..12] != [0, 0, 0, 0, 0, 0, 0, 0, 0, 0, 255, 255])
  }

  lemma ShortForm(ip: Bytes, short: Bytes)
    requires Written(ip, short)
    ensures To4(ip) == if |short| == 4 then Some(short) else None
  {
    var mapped: Bytes := [0, 0, 0, 0, 0, 0, 0, 0, 0, 0, 255, 255];
    if |short| == 16 && To4(ip).Some? {
      assert forall i :: 0 <= i < 12 ==> ip[..12][i] == mapped[i];
    }
  }

  lemma ShortOf(ip: Bytes)
    requires To4(ip).Some?
    ensures |To4(ip).value| == 4 && Written(ip, To4(ip).value)
  {
    if |ip| == 16 {
      assert ip == [0, 0, 0, 0, 0, 0, 0, 0, 0, 0, 255, 255] + ip[12..];
    }
  }

  /** Every address has exactly one short form. */
  lemma EveryAddressIsWritten(ip: Bytes) returns (short: Bytes)
    requires |ip| == 4 || |ip| == 16
    ensures Written(ip, short) && forall other: Bytes :: Written(ip, other) ==> other == short
  {
    if |ip| == 16 && ip[..12] == [0, 0, 0, 0, 0, 0, 0, 0, 0, 0, 255, 255] {
      short := ip[12..];
      assert ip == [0, 0, 0, 0, 0, 0, 0, 0, 0, 0, 255, 255] + short;
    } else {
      short := ip;
    }
    forall other: Bytes | Written(ip, other) ensures other == short {
      OneShortForm(ip, short, other);
    }
  }

  lemma OneShortForm(ip: Bytes, short: Bytes, other: Bytes)
    requires Written(ip, short) && Written(ip, other)
    ensures short == other
  {
    hide To4, Written;
    ShortForm(ip, short);
    ShortForm(ip, other);
    WrittenLengths(ip, short);
    WrittenLengths(ip, other);
  }

  /** Membership in a network, from the bytes of its number, its mask and the address in whatever form. */
  lemma ContainsInBytes(n: IPNet, ip: Bytes, number: Bytes, address: Bytes)
    requires Written(n.ip, number) && Written(ip, address)
    ensures |n.mask| == |number| ==>
              (Contains(n, ip) <==> |address| == |number| && forall i :: 0 <= i < |number| ==> Agree(number[i], address[i], n.mask[i]))
    ensures |n.mask| == 16 && |number| == 4 ==>
              (Contains(n, ip) <==> |address| == 4 && forall i :: 0 <= i < 4 ==> Agree(number[i], address[i], n.mask[12..][i]))
    ensures |n.mask| != 16 && |n.mask| != |number| ==> !Contains(n, ip)
  {
    hide To4, Agree, Written;
    WrittenLengths(n.ip, number);
    WrittenLengths(ip, address);
    ShortForm(n.ip, number);
    ShortForm(ip, address);
  }

  lemma WrittenLengths(ip: Bytes, short: Bytes)
    requires Written(ip, short)
    ensures (|short| == 4 || |short| == 16) && (|short| == 16 ==> ip == short)
  {
  }

  lemma AgreeMeans(a: bv8, b: bv8, m: bv8)
    ensures Agree(a, b, m) <==> (a ^ b) & m == 0
  {
  }

  /** One bits first, zero bits after: within a byte, and from byte to byte. */
  predicate ByteContiguous(m: bv8) {
    !m & (!m + 1) == 0
  }

  predicate Contiguous(mask: Bytes) {
    && (forall i :: 0 <= i < |mask| ==> ByteContiguous(mask[i]))
    && forall i, j :: 0 <= i < j < |mask| && mask[j] != 0 ==> mask[i] == 255
  }

  predicate HostOnes(b: bv8, m: bv8) {
    b | m == 255
  }

  predicate HostBitsAllOne(ip: Bytes, mask: Bytes)
    requires |ip| == |mask|
  {
    forall i :: 0 <= i < |ip| ==> HostOnes(ip[i], mask[i])
  }

  lemma ByteStep(b: bv8, m: bv8)
    requires ByteContiguous(m) && b != 255
    ensures Agree(b, b + 1, m) <==> !HostOnes(b, m) || m == 0
    ensures m == 0 ==> !HostOnes(b, m)
  {
  }

  lemma ByteWraps(m: bv8)
    ensures Agree(255, 0, m) <==> m == 0
    ensures HostOnes(255, m)
  {
  }

  lemma ByteFull(a: bv8, b: bv8)
    ensures Agree(a, b, 255) <==> a == b
    ensures HostOnes(a, 255)
  {
  }

  lemma ByteFree(a: bv8, b: bv8)
    ensures Agree(a, b, 0)
  {
  }

  /** Membership and host bits, split into the last byte and the ones before it. */
  lemma SplitLast(a: Bytes, b: Bytes, mask: Bytes)
    requires |a| == |b| == |mask| > 0
    ensures var k := |a| - 1;
            && (SameNetwork(a, b, mask) <==> SameNetwork(a[..k], b[..k], mask[..k]) && Agree(a[k], b[k], mask[k]))
            && (HostBitsAllOne(a, mask) <==> HostBitsAllOne(a[..k], mask[..k]) && HostOnes(a[k], mask[k]))
  {
  }

  /** Bytes before a used mask byte are all network bytes. */
  lemma FrontIsFull(a: Bytes, mask: Bytes, k: nat)
    requires |a| == |mask| && k < |mask| && Contiguous(mask) && mask[k] != 0
    ensures HostBitsAllOne(a[..k], mask[..k])
  {
  }

  lemma SameAsItself(a: Bytes, mask: Bytes)
    requires |a| == |mask|
    ensures SameNetwork(a, a, mask)
  {
  }

  /** The next address is in the same network unless the host bits are all one. */
  lemma {:induction false} IncrementStaysInNetwork(ip: Bytes, mask: Bytes)
    requires |ip| == |mask| > 0 && Contiguous(mask) && mask[0] != 0
    ensures SameNetwork(ip, Increment(ip), mask) <==> !HostBitsAllOne(ip, mask)
    decreases |ip|
  {
    var k := |ip| - 1;
    var next, m := Increment(ip), mask[k];
    SplitLast(ip, next, mask);
    if m != 0 {
      FrontIsFull(ip, mask, k);
    }
    if ip[k] != 255 {
      assert next[..k] == ip[..k];
      SameAsItself(ip[..k], mask[..k]);
      ByteStep(ip[k], m);
    } else {
      assert next[..k] == Increment(ip[..k]) && next[k] == 0;
      ByteWraps(m);
      if m == 0 {
        assert Contiguous(mask[..k]);
        IncrementStaysInNetwork(ip[..k], mask[..k]);
      }
    }
  }

  /** GetFirstUsableIP; None stands for a nil network and for a nil result. */
  method GetFirstUsableIP(ipNet: Option<IPNet>) returns (r: Option<Bytes>)
    ensures r == match ipNet
                 case None => None
                 case Some(n) => if Contains(n, Increment(n.ip)) then Some(Increment(n.ip)) else None
  {
    if ipNet.None? {
      return None;
    }
    var n := ipNet.value;
    var ip := new bv8[|n.ip|](i requires 0 <= i < |n.ip| => n.ip[i]);
    assert ip[..] == n.ip;
    var first := IncrementIP(ip);
    if !Contains(n, first[..]) {
      return None;
    }
    return Some(first[..]);
  }

  predicate AllFull(ip: Bytes) {
    forall i :: 0 <= i < |ip| ==> ip[i] == 255
  }

  /** The carry leaves the front alone unless every byte after it is full. */
  lemma {:induction false} CarryInto(front: Bytes, back: Bytes)
    ensures !AllFull(back) ==> Increment(front + back) == front + Increment(back)
    ensures AllFull(back) ==> |Increment(front + back)| == |front + back| && Increment(front + back)[..|front|] == Increment(front)
    decreases |back|
  {
    if back == [] {
      assert front + back == front;
    } else {
      var k := |back| - 1;
      var ip := front + back;
      CarryInto(front, back[..k]);
      assert ip[..|ip| - 1] == front + back[..k] && ip[|ip| - 1] == back[k];
      if back[k] == 255 {
        assert AllFull(back[..k]) ==> AllFull(back);
        assert front + (Increment(back[..k]) + [0]) == front + Increment(back[..k]) + [0];
      } else {
        assert ip[|ip| - 1 := back[k] + 1] == front + back[k := back[k] + 1];
      }
    }
  }

  /** The address after an IPv4-mapped one is mapped, unless its four bytes are full. */
  lemma MappedIncrement(ip: Bytes)
    requires |ip| == 16 && To4(ip).Some?
    ensures To4(Increment(ip)) == if AllFull(ip[12..]) then None else Some(Increment(ip[12..]))
  {
    assert ip == ip[..12] + ip[12..];
    CarryInto(ip[..12], ip[12..]);
    if AllFull(ip[12..]) {
      assert ip[..12][11] == 255;
      assert Increment(ip[..12]) == Increment(ip[..12][..11]) + [0];
      assert Increment(ip)[11] == Increment(ip)[..12][11] == 0;
    }
  }

  lemma FullHasHostOnes(ip: Bytes, mask: Bytes)
    requires |ip| == |mask| && AllFull(ip)
    ensures HostBitsAllOne(ip, mask)
  {
  }

  /** ::fffe:ffff:ffff, the last address before the IPv4-mapped ones. */
  const BEFORE_MAPPED: Bytes := [0, 0, 0, 0, 0, 0, 0, 0, 0, 0, 255, 254, 255, 255, 255, 255]

  /** Ten zero bytes, then two given ones, then full bytes if asked. */
  predicate Shape(ip: Bytes, tenth: bv8, eleventh: bv8, full: bool)
    requires |ip| == 16
  {
    (forall j :: 0 <= j < 10 ==> ip[j] == 0) && ip[10] == tenth && ip[11] == eleventh && (full ==> forall j :: 12 <= j < 16 ==> ip[j] == 255)
  }

  lemma BeforeMappedShape(ip: Bytes)
    requires |ip| == 16
    ensures |BEFORE_MAPPED| == 16 && (Shape(ip, 255, 254, true) <==> ip == BEFORE_MAPPED)
    ensures To4(ip).Some? <==> Shape(ip, 255, 255, false)
  {
    if Shape(ip, 255, 254, true) {
      assert forall j :: 0 <= j < 10 ==> BEFORE_MAPPED[j] == 0;
      assert forall j :: 12 <= j < 16 ==> BEFORE_MAPPED[j] == 255;
    }
  }

  /** Of the other addresses only the last one before the IPv4-mapped ones has a mapped one after it. */
  lemma OnlyBeforeMapped(ip: Bytes)
    requires |ip| == 16 && To4(ip) == None
    ensures To4(Increment(ip)).Some? <==> ip == BEFORE_MAPPED
  {
    hide To4, Increment, BEFORE_MAPPED;
    var i := 15;
    while i >= 0 && ip[i] == 255
      invariant -1 <= i < 16 && forall j :: i < j < 16 ==> ip[j] == 255
    {
      i := i - 1;
    }
    IncrementAt(ip, i);
    BeforeMappedShape(ip);
    BeforeMappedShape(Increment(ip));
    CarryReaches(ip, Increment(ip), i);
  }

  lemma CarryReaches(ip: Bytes, next: Bytes, i: int)
    requires |ip| == |next| == 16 && -1 <= i < 16 && (forall j :: i < j < 16 ==> ip[j] == 255) && (i >= 0 ==> ip[i] != 255)
    requires forall j :: 0 <= j < 16 ==> next[j] == if j < i then ip[j] else if j == i then ip[j] + 1 else 0
    requires !Shape(ip, 255, 255, false)
    ensures Shape(next, 255, 255, false) <==> Shape(ip, 255, 254, true)
  {
    ByteBefore255(ip[11]);
    if i > 11 {
      assert next[10] == ip[10] && next[11] == ip[11] && forall j :: 0 <= j < 10 ==> next[j] == ip[j];
    } else if i < 11 {
      assert next[11] == 0 && ip[11] == 255;
    }
  }

  lemma ByteBefore255(b: bv8)
    ensures b + 1 == 255 <==> b == 254
  {
  }

  /** Whether the network contains the next address, by the form of its number. */
  lemma NextByForm(n: IPNet)
    requires NumberAndMask(n).0 != []
    ensures var (number, mask) := NumberAndMask(n);
            && |number| == |mask|
            && (|n.ip| == 4 ==> number == n.ip && (Contains(n, Increment(n.ip)) <==> SameNetwork(number, Increment(number), mask)))
            && (|n.ip| != 4 ==> |n.ip| == 16)
            && (|n.ip| == 16 && To4(n.ip).Some? ==>
                  && number == n.ip[12..]
                  && (Contains(n, Increment(n.ip)) <==> !AllFull(number) && SameNetwork(number, Increment(number), mask)))
            && (|n.ip| == 16 && To4(n.ip).None? ==>
                  && number == n.ip
                  && (Contains(n, Increment(n.ip)) <==> n.ip != BEFORE_MAPPED && SameNetwork(number, Increment(number), mask)))
  {
    hide SameNetwork, Increment;
    if |n.ip| == 16 && To4(n.ip).Some? {
      MappedIncrement(n.ip);
    } else if |n.ip| == 16 {
      hide AllFull;
      OnlyBeforeMapped(n.ip);
    }
  }

  /**
   With a non-empty contiguous mask there is no next address exactly when the host bits of the
   network number are all one. There is one exception: the IPv6 address before the IPv4-mapped
   ones, because the membership test takes the address after it for an IPv4 address.
   */
  lemma FirstUsableExactly(n: IPNet)
    requires var (number, mask) := NumberAndMask(n); number != [] && Contiguous(mask) && mask[0] != 0
    ensures var (number, mask) := NumberAndMask(n);
            Contains(n, Increment(n.ip)) <==> !HostBitsAllOne(number, mask) && n.ip != BEFORE_MAPPED
  {
    hide Contains, Increment, SameNetwork, HostBitsAllOne, AllFull, Contiguous;
    var (number, mask) := NumberAndMask(n);
    NextByForm(n);
    IncrementStaysInNetwork(number, mask);
    if AllFull(number) {
      FullHasHostOnes(number, mask);
    }
  }

  const MASK_95: Bytes := [255, 255, 255, 255, 255, 255, 255, 255, 255, 255, 255, 254, 0, 0, 0, 0]

  lemma Mask95IsContiguous()
    ensures Contiguous(MASK_95)
  {
  }

  lemma Mask95Leaves()
    ensures |MASK_95| == |BEFORE_MAPPED| == 16 && !HostBitsAllOne(BEFORE_MAPPED, MASK_95)
    ensures NumberAndMask(IPNet(BEFORE_MAPPED, MASK_95)) == (BEFORE_MAPPED, MASK_95)
  {
    assert !HostOnes(BEFORE_MAPPED[11], MASK_95[11]);
  }

  /** The input that is the exception, in a network that has the next address. */
  lemma NextIsTakenForIPv4()
    ensures Contiguous(MASK_95) && !HostBitsAllOne(BEFORE_MAPPED, MASK_95)
    ensures |Increment(BEFORE_MAPPED)| == 16 && SameNetwork(BEFORE_MAPPED, Increment(BEFORE_MAPPED), MASK_95)
    ensures !Contains(IPNet(BEFORE_MAPPED, MASK_95), Increment(BEFORE_MAPPED))
  {
    hide Contiguous, HostBitsAllOne, SameNetwork, Contains, Increment, NumberAndMask;
    Mask95IsContiguous();
    Mask95Leaves();
    IncrementStaysInNetwork(BEFORE_MAPPED, MASK_95);
    FirstUsableExactly(IPNet(BEFORE_MAPPED, MASK_95));
  }

  // ---- IsValidRange ----

  function Pow2(n: nat): (p: nat)
    ensures p > 0
  {
    if n == 0 then 1 else 2 * Pow2(n - 1)
  }

  /** Shift left in 32 bits, and bitwise or. */
  function ShiftLeft(x: nat, n: nat): nat {
    x * Pow2(n) % 0x1_0000_0000
  }

  function BitOr(x: nat, y: nat): nat
    decreases x + y
  {
    if x == 0 && y == 0 then 0
    else (if x % 2 == 1 || y % 2 == 1 then 1 else 0) + 2 * BitOr(x / 2, y / 2)
  }

  /** Four bytes as a 32-bit word, built with shifts and ors. */
  function Word(ip: Bytes): nat
    requires |ip| == 4
  {
    BitOr(BitOr(BitOr(ShiftLeft(Digit(ip[0]), 24), ShiftLeft(Digit(ip[1]), 16)), ShiftLeft(Digit(ip[2]), 8)), Digit(ip[3]))
  }

  function IsValidRange(start: Bytes, end: Bytes, n: IPNet): bool {
    var s, e := To4(start), To4(end);
    s.Some? && e.Some? && Contains(n, s.value) && Contains(n, e.value) && Word(e.value) > Word(s.value)
  }

  lemma {:induction false} OrWithZero(x: nat)
    ensures BitOr(x, 0) == x
  {
    if x > 0 {
      OrWithZero(x / 2);
    }
  }

  /** Or of a multiple of a power of two with something below that power is their sum. */
  lemma {:induction false} OrIsSum(x: nat, y: nat, n: nat)
    requires y < Pow2(n)
    ensures BitOr(x * Pow2(n), y) == x * Pow2(n) + y
  {
    if n == 0 {
      OrWithZero(x);
    } else {
      var h := x * Pow2(n - 1);
      assert x * Pow2(n) == 2 * h;
      OrIsSum(x, y / 2, n - 1);
    }
  }

  lemma PowersOfTwo()
    ensures Pow2(8) == 256 && Pow2(16) == 65536 && Pow2(24) == 16777216
  {
  }

  lemma ShiftFits(x: nat, n: nat, p: nat)
    requires p == Pow2(n) && x * p < 0x1_0000_0000
    ensures ShiftLeft(x, n) == x * p
  {
  }

  lemma OrAt(x: nat, y: nat, n: nat, p: nat)
    requires p == Pow2(n) && y < p
    ensures BitOr(x * p, y) == x * p + y
  {
    OrIsSum(x, y, n);
  }

  lemma WordOfDigits(a: nat, b: nat, c: nat, d: nat)
    requires a < 256 && b < 256 && c < 256 && d < 256
    ensures BitOr(BitOr(BitOr(ShiftLeft(a, 24), ShiftLeft(b, 16)), ShiftLeft(c, 8)), d) == ((a * 256 + b) * 256 + c) * 256 + d
  {
    hide BitOr, ShiftLeft, Pow2;
    PowersOfTwo();
    ShiftFits(a, 24, 16777216);
    ShiftFits(b, 16, 65536);
    ShiftFits(c, 8, 256);
    OrAt(a, b * 65536, 24, 16777216);
    OrAt(a * 256 + b, c * 256, 16, 65536);
    OrAt(a * 65536 + b * 256 + c, d, 8, 256);
  }

  lemma FourDigits(ip: Bytes)
    requires |ip| == 4
    ensures Value(ip) == ((Digit(ip[0]) * 256 + Digit(ip[1])) * 256 + Digit(ip[2])) * 256 + Digit(ip[3])
  {
    hide Digit;
    LastDigit(ip);
    LastDigit(ip[..3]);
    LastDigit(ip[..3][..2]);
    LastDigit(ip[..3][..2][..1]);
  }

  /** The shifted word is the address as a base-256 number. */
  lemma WordIsValue(ip: Bytes)
    requires |ip| == 4
    ensures Word(ip) == Value(ip)
  {
    hide Value, Digit, BitOr, ShiftLeft;
    WordOfDigits(Digit(ip[0]), Digit(ip[1]), Digit(ip[2]), Digit(ip[3]));
    FourDigits(ip);
  }

  lemma ByteBetween(m: bv8, n: bv8, s: bv8, x: bv8, e: bv8)
    requires ByteContiguous(m) && Agree(n, s, m) && Agree(n, e, m) && s <= x <= e
    ensures Agree(n, x, m)
  {
  }

  /** Under a contiguous mask a network is an interval of addresses. */
  lemma {:induction false} BetweenStaysInNetwork(number: Bytes, mask: Bytes, s: Bytes, x: Bytes, e: Bytes)
    requires |number| == |mask| == |s| == |x| == |e| && Contiguous(mask)
    requires SameNetwork(number, s, mask) && SameNetwork(number, e, mask)
    requires !Lex(x, s) && !Lex(e, x)
    ensures SameNetwork(number, x, mask)
    decreases |mask|
  {
    if mask != [] {
      ByteBetween(mask[0], number[0], s[0], x[0], e[0]);
      if mask[0] == 255 {
        ByteFull(number[0], s[0]);
        ByteFull(number[0], e[0]);
        BetweenStaysInNetwork(number[1..], mask[1..], s[1..], x[1..], e[1..]);
        forall i | 0 < i < |mask| ensures Agree(number[i], x[i], mask[i]) {
          assert Agree(number[1..][i - 1], x[1..][i - 1], mask[1..][i - 1]);
        }
      } else {
        forall i | 0 < i < |mask| ensures Agree(number[i], x[i], mask[i]) {
          ByteFree(number[i], x[i]);
        }
      }
    }
  }

  /** A valid range: both ends in the network, in order, and with a contiguous mask everything between. */
  lemma ValidRangeExactly(start: Bytes, end: Bytes, n: IPNet)
    ensures IsValidRange(start, end, n)
       <==> To4(start).Some? && To4(end).Some? && Contains(n, start) && Contains(n, end) && Value(To4(start).value) < Value(To4(end).value)
    ensures IsValidRange(start, end, n) && Contiguous(NumberAndMask(n).1) ==>
              forall x: Bytes :: |x| == 4 && Value(To4(start).value) <= Value(x) <= Value(To4(end).value) ==> Contains(n, x)
  {
    if To4(start).Some? && To4(end).Some? {
      var s, e := To4(start).value, To4(end).value;
      WordIsValue(s);
      WordIsValue(e);
      if IsValidRange(start, end, n) && Contiguous(NumberAndMask(n).1) {
        forall x: Bytes | |x| == 4 && Value(s) <= Value(x) <= Value(e) ensures Contains(n, x) {
          LexIsNumeric(x, s);
          LexIsNumeric(e, x);
          BetweenStaysInNetwork(NumberAndMask(n).0, NumberAndMask(n).1, s, x, e);
        }
      }
    }
  }

  // ---- The condition on the mask cannot be dropped ----

  /** A network is an interval: whatever lies between two members is a member. */
  ghost predicate IsInterval(number: Bytes, mask: Bytes)
    requires |number| == |mask|
  {
    forall s: Bytes, x: Bytes, e: Bytes |
      |s| == |x| == |e| == |mask| && SameNetwork(number, s, mask) && SameNetwork(number, e, mask) && Lex(s, x) && Lex(x, e)
      :: SameNetwork(number, x, mask)
  }

  lemma ByteGap(m: bv8, n: bv8) returns (low: bv8, between: bv8, high: bv8)
    requires !ByteContiguous(m)
    ensures low < between < high && Agree(n, low, m) && Agree(n, high, m) && !Agree(n, between, m)
  {
    var host, bit := !m & (!m + 1), m & (!m + 1);
    low := n & m;
    high := low | host;
    between := if low & bit == 0 then low | bit else high & !bit;
  }

  /** A byte that is not fully masked has two members. */
  lemma BytePair(m: bv8, n: bv8) returns (low: bv8, high: bv8)
    requires m != 255
    ensures low < high && Agree(n, low, m) && Agree(n, high, m)
  {
    low := n & m;
    high := low | !m;
  }

  /** A byte with a mask bit has a member and a non-member. */
  lemma ByteStray(m: bv8, n: bv8) returns (member: bv8, stray: bv8)
    requires m != 0
    ensures member != stray && Agree(n, member, m) && !Agree(n, stray, m)
  {
    member := n;
    stray := n ^ m;
  }

  lemma {:induction false} LexAt(a: Bytes, b: Bytes, i: nat)
    requires |a| == |b| && i < |a| && a[i] < b[i] && forall j :: 0 <= j < i ==> a[j] == b[j]
    ensures Lex(a, b)
    decreases i
  {
    if i > 0 {
      LexAt(a[1..], b[1..], i - 1);
    }
  }

  lemma Replace(number: Bytes, mask: Bytes, a: Bytes, i: nat, b: bv8)
    requires |number| == |mask| == |a| && i < |mask| && SameNetwork(number, a, mask)
    ensures Agree(number[i], b, mask[i]) <==> SameNetwork(number, a[i := b], mask)
  {
  }

  /** Networks are intervals exactly under contiguous masks. */
  lemma IntervalExactly(number: Bytes, mask: Bytes)
    requires |number| == |mask|
    ensures IsInterval(number, mask) <==> Contiguous(mask)
  {
    if Contiguous(mask) {
      forall s: Bytes, x: Bytes, e: Bytes |
        |s| == |x| == |e| == |mask| && SameNetwork(number, s, mask) && SameNetwork(number, e, mask) && Lex(s, x) && Lex(x, e)
        ensures SameNetwork(number, x, mask)
      {
        LexIsNumeric(s, x);
        LexIsNumeric(x, s);
        LexIsNumeric(x, e);
        LexIsNumeric(e, x);
        BetweenStaysInNetwork(number, mask, s, x, e);
      }
    } else if i :| 0 <= i < |mask| && !ByteContiguous(mask[i]) {
      GapInByte(number, mask, i);
    } else {
      var i, j :| 0 <= i < j < |mask| && mask[j] != 0 && mask[i] != 255;
      GapAcrossBytes(number, mask, i, j);
    }
  }

  lemma GapInByte(number: Bytes, mask: Bytes, i: nat)
    requires |number| == |mask| && i < |mask| && !ByteContiguous(mask[i])
    ensures !IsInterval(number, mask)
  {
    SameAsItself(number, mask);
    var low, between, high := ByteGap(mask[i], number[i]);
    Replace(number, mask, number, i, low);
    Replace(number, mask, number, i, between);
    Replace(number, mask, number, i, high);
    LexAt(number[i := low], number[i := between], i);
    LexAt(number[i := between], number[i := high], i);
  }

  predicate Below(a: bv8, b: bv8) {
    a < b
  }

  lemma OneIsBelow(a: bv8, b: bv8)
    requires a != b
    ensures Below(a, b) || Below(b, a)
  {
  }

  lemma LexFrom(a: Bytes, b: Bytes, i: nat)
    requires |a| == |b| && i < |a| && Below(a[i], b[i]) && a[..i] == b[..i]
    ensures Lex(a, b)
  {
    assert forall l :: 0 <= l < i ==> a[l] == a[..i][l] == b[..i][l] == b[l];
    LexAt(a, b, i);
  }

  /** Two members that differ at an earlier byte have a non-member between them. */
  lemma StrayBetween(number: Bytes, mask: Bytes, s: Bytes, e: Bytes, i: nat, j: nat, stray: bv8)
    requires |number| == |mask| == |s| == |e| && i < j < |mask|
    requires SameNetwork(number, s, mask) && SameNetwork(number, e, mask)
    requires Below(s[i], e[i]) && s[..i] == e[..i] && s[j] == e[j]
    requires stray != s[j] && !Agree(number[j], stray, mask[j])
    ensures !IsInterval(number, mask)
  {
    hide Agree, Lex, SameNetwork, Below;
    OneIsBelow(s[j], stray);
    if Below(s[j], stray) {
      var x := s[j := stray];
      Replace(number, mask, s, j, stray);
      assert x[..j] == s[..j] && x[..i] == s[..i];
      LexFrom(s, x, j);
      LexFrom(x, e, i);
    } else {
      var x := e[j := stray];
      Replace(number, mask, e, j, stray);
      assert x[..j] == e[..j] && x[..i] == e[..i];
      LexFrom(s, x, i);
      LexFrom(x, e, j);
    }
  }

  lemma GapAcrossBytes(number: Bytes, mask: Bytes, i: nat, j: nat)
    requires |number| == |mask| && i < j < |mask| && mask[j] != 0 && mask[i] != 255
    ensures !IsInterval(number, mask)
  {
    SameAsItself(number, mask);
    var low, high := BytePair(mask[i], number[i]);
    var member, stray := ByteStray(mask[j], number[j]);
    var base := number[j := member];
    Replace(number, mask, number, j, member);
    Replace(number, mask, base, i, low);
    Replace(number, mask, base, i, high);
    assert base[i := low][..i] == base[i := high][..i];
    StrayBetween(number, mask, base[i := low], base[i := high], i, j, stray);
  }
}
