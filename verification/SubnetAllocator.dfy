/**
  The IPv4 allocator: the first address of a subnet whose dotted-decimal form is not yet
  marked as taken.
 */
module SubnetAllocator {
  import opened Common
  import opened Uint32
  import Decimal

  // ---------- Bytes, addresses and map keys ----------

  type Octet = b: int | 0 <= b < 256

  function BigEndian(b: seq<Octet>): u32
    requires |b| >= 4
  {
    b[0] as int * 0x100_0000 + b[1] as int * 0x1_0000 + b[2] as int * 0x100 + b[3] as int
  }

  function Octets(v: u32): (b: seq<Octet>)
    ensures |b| == 4
  {
    [v / 0x100_0000, v / 0x1_0000 % 0x100, v / 0x100 % 0x100, v % 0x100]
  }

  lemma OctetsRoundTrip(v: u32)
    ensures BigEndian(Octets(v)) == v
  {
    var upper3 := v / 0x100;
    var upper2 := upper3 / 0x100;
    assert upper2 == v / 0x1_0000 && upper2 / 0x100 == v / 0x100_0000;
    assert v == 0x100 * upper3 + v % 0x100;
    assert upper3 == 0x100 * upper2 + upper3 % 0x100;
    assert upper2 == 0x100 * (upper2 / 0x100) + upper2 % 0x100;
  }

  function Dotted(b: seq<Octet>): string
    requires |b| == 4
  {
    Decimal.Digits(b[0]) + "." + (Decimal.Digits(b[1]) + "." + (Decimal.Digits(b[2]) + "." + Decimal.Digits(b[3])))
  }

  /** The key an address has in the map of taken addresses. */
  function Key(v: u32): string {
    Dotted(Octets(v))
  }

  lemma FirstDot(a: string, x: string)
    requires '.' !in a
    ensures var s := a + "." + x;
            s[|a|] == '.' && forall i | 0 <= i < |a| :: s[i] != '.'
  {
  }

  lemma DotSplitsUniquely(a: string, x: string, b: string, y: string)
    requires a + "." + x == b + "." + y
    requires '.' !in a && '.' !in b
    ensures a == b && x == y
  {
    FirstDot(a, x);
    FirstDot(b, y);
    var s := a + "." + x;
    assert a == s[..|a|] && b == s[..|b|];
    assert x == s[|a| + 1..] && y == s[|b| + 1..];
  }

  lemma DottedInjective(a: seq<Octet>, b: seq<Octet>)
    requires |a| == 4 && |b| == 4 && Dotted(a) == Dotted(b)
    ensures a == b
  {
    var a3, b3 := Decimal.Digits(a[3]), Decimal.Digits(b[3]);
    var a2, b2 := Decimal.Digits(a[2]) + "." + a3, Decimal.Digits(b[2]) + "." + b3;
    var a1, b1 := Decimal.Digits(a[1]) + "." + a2, Decimal.Digits(b[1]) + "." + b2;
    DotSplitsUniquely(Decimal.Digits(a[0]), a1, Decimal.Digits(b[0]), b1);
    DotSplitsUniquely(Decimal.Digits(a[1]), a2, Decimal.Digits(b[1]), b2);
    DotSplitsUniquely(Decimal.Digits(a[2]), a3, Decimal.Digits(b[2]), b3);
    forall i | 0 <= i < 4 ensures a[i] == b[i] {
      Decimal.DigitsInjective(a[i], b[i]);
    }
  }

  /** Distinct addresses never share a key. */
  lemma KeyInjective(v: u32, w: u32)
    requires Key(v) == Key(w)
    ensures v == w
  {
    DottedInjective(Octets(v), Octets(w));
    OctetsRoundTrip(v);
    OctetsRoundTrip(w);
  }

  /** The text of the key: four decimal numerals, highest byte first, with dots between them. */
  lemma KeyText(v: u32) returns (parts: seq<string>)
    ensures |parts| == 4 && Key(v) == parts[0] + "." + parts[1] + "." + parts[2] + "." + parts[3]
    ensures Decimal.Reads(parts[0], v / 0x100_0000)
    ensures Decimal.Reads(parts[1], v / 0x1_0000 % 0x100)
    ensures Decimal.Reads(parts[2], v / 0x100 % 0x100)
    ensures Decimal.Reads(parts[3], v % 0x100)
  {
    var b := Octets(v);
    parts := [Decimal.Digits(b[0]), Decimal.Digits(b[1]), Decimal.Digits(b[2]), Decimal.Digits(b[3])];
    forall i | 0 <= i < 4 ensures Decimal.Reads(parts[i], b[i]) {
      Decimal.DigitsAreNumeral(b[i]);
      Decimal.ValueOfDigits(b[i]);
    }
    assert Key(v) == parts[0] + ("." + (parts[1] + ("." + (parts[2] + ("." + parts[3])))));
  }

  /** For instance. */
  lemma KeyOfTenNetwork()
    ensures Key(0x0A00_0001) == "10.0.0.1"
  {
    hide Decimal.Digits, Decimal.Value;
    DigitsSmall();
    assert Octets(0x0A00_0001) == [10, 0, 0, 1];
    assert "10" + "." + ("0" + "." + ("0" + "." + "1")) == "10.0.0.1";
  }

  lemma DigitsSmall()
    ensures Decimal.Digits(0) == "0" && Decimal.Digits(1) == "1" && Decimal.Digits(10) == "10"
  {
  }

  type Taken = map<string, bool>

  /** An absent key and a key marked false both count as free. */
  predicate IsTaken(taken: Taken, v: u32) {
    Key(v) in taken && taken[Key(v)]
  }

  ghost function TakenSet(taken: Taken): set<u32> {
    set v: u32 | 0 <= v < MODULUS && IsTaken(taken, v)
  }

  /** The string-keyed map refines a set of addresses: marking one adds exactly that one. */
  lemma MarkingAddsOne(taken: Taken, a: u32)
    ensures TakenSet(taken[Key(a) := true]) == TakenSet(taken) + {a}
  {
    forall v: u32 ensures IsTaken(taken[Key(a) := true], v) <==> v == a || IsTaken(taken, v) {
      MarkingOnlyItself(taken, a, v);
    }
  }

  // ---------- The range ----------

  datatype IPNet = IPNet(ip: seq<Octet>, mask: seq<Octet>)

  /** The address is 4 bytes long, or 16 with the IPv4 part at the end. */
  function NetworkAddress(subnet: IPNet): u32
    requires |subnet.ip| >= 4
  {
    if |subnet.ip| == 16 then BigEndian(subnet.ip[12..16]) else BigEndian(subnet.ip)
  }

  /** Four bytes are read highest first. */
  lemma BigEndianBytes(a: Octet, b: Octet, c: Octet, d: Octet)
    ensures var v := BigEndian([a, b, c, d]);
            v / 0x100_0000 == a && v / 0x1_0000 % 0x100 == b && v / 0x100 % 0x100 == c && v % 0x100 == d
  {
    var v := BigEndian([a, b, c, d]);
    var upper3 := (a as int * 0x100 + b as int) * 0x100 + c as int;
    assert v == 0x100 * upper3 + d as int && v / 0x100 == upper3;
    assert upper3 / 0x100 == a as int * 0x100 + b as int && upper3 / 0x1_0000 == a;
    assert v / 0x1_0000 == upper3 / 0x100 && v / 0x100_0000 == upper3 / 0x1_0000;
  }

  /** The IPv4 address, given as four bytes or as the last four of the sixteen of an IPv6 form. */
  lemma NetworkAddressBytes(front: seq<Octet>, a: Octet, b: Octet, c: Octet, d: Octet, mask: seq<Octet>)
    requires |front| == 0 || |front| == 12
    ensures var v := NetworkAddress(IPNet(front + [a, b, c, d], mask));
            v / 0x100_0000 == a && v / 0x1_0000 % 0x100 == b && v / 0x100 % 0x100 == c && v % 0x100 == d
  {
    BigEndianBytes(a, b, c, d);
    assert front == [] ==> front + [a, b, c, d] == [a, b, c, d];
    assert |front| == 12 ==> (front + [a, b, c, d])[12..16] == [a, b, c, d];
  }

  function Start(ip: u32): u32 {
    Add(ip, 1)
  }

  function Finish(ip: u32, mask: u32): u32 {
    Pow2Of32();
    BitwiseStaysInWidth(Start(ip), mask, 32);
    BitwiseStaysInWidth(mask, MAX, 32);
    BitwiseStaysInWidth(BitAnd(Start(ip), mask), BitXor(mask, MAX), 32);
    BitOr(BitAnd(Start(ip), mask), BitXor(mask, MAX))
  }

  /** The search starts after the address, or at 0.0.0.0 after the highest. */
  lemma StartIsNext(ip: u32)
    ensures Start(ip) == if ip == 0xffff_ffff then 0 else ip + 1
  {
    AddOne(ip);
  }

  /** For any mask: the last address keeps the start's bits under the mask, and has ones elsewhere. */
  lemma FinishBits(ip: u32, mask: u32, j: nat)
    requires j < 32
    ensures Bit(Finish(ip, mask), j) == if Bit(mask, j) == 1 then Bit(Start(ip), j) else 1
  {
    hide Bit, BitAnd, BitOr, BitXor, Pow2;
    Pow2Of32();
    BitOfAllOnes(32, j);
    BitOfResult(Start(ip), mask, j);
    BitOfResult(mask, MAX, j);
    BitOfResult(BitAnd(Start(ip), mask), BitXor(mask, MAX), j);
    BitIsBinary(Start(ip), j);
    BitIsBinary(mask, j);
  }

  /** The mask of a network with `k` host bits, a prefix length of 32 - k. */
  function NetworkMask(k: nat): u32
    requires k <= 32
  {
    Pow2Of32();
    PrefixMask(32, k)
  }

  /** For a prefix mask, the range ends with the block that its start lies in. */
  lemma FinishIsBlockEnd(ip: u32, k: nat)
    requires k <= 32
    ensures Finish(ip, NetworkMask(k)) == ClearLow(Start(ip), k) + Pow2(k) - 1
  {
    Pow2Of32();
    AndPrefixMask(Start(ip), 32, k);
    XorPrefixMask(32, k);
    OrBelowCleared(Start(ip), k);
  }

  /** For a network address with at least one host bit the range is the rest of the subnet. */
  lemma FinishOfNetwork(base: u32, k: nat)
    requires 1 <= k <= 32 && Aligned(base, k)
    ensures base + 2 <= base + Pow2(k) <= MODULUS
    ensures Start(base) == base + 1
    ensures Finish(base, NetworkMask(k)) == base + Pow2(k) - 1
  {
    hide Finish, NetworkMask, ClearLow;
    Pow2Of32();
    BlockFits(base, k, 32);
    assert Pow2(k) == 2 * Pow2(k - 1);
    AddOne(base);
    FinishIsBlockEnd(base, k);
    ClearLowInBlock(base, k, 1);
  }

  /** With no host bits the one address tried is the one after the subnet. */
  lemma FinishOfSingleAddress(base: u32)
    ensures Finish(base, NetworkMask(0)) == Start(base) != base
  {
    hide Finish, NetworkMask;
    FinishIsBlockEnd(base, 0);
    AddOne(base);
  }

  // ---------- The search loop ----------

  datatype Loop = Running(i: u32) | Found(i: u32) | Exhausted

  /** One iteration, counter wrap included. */
  function Iterate(taken: Taken, finish: u32, s: Loop): Loop {
    if !s.Running? then s
    else if s.i > finish then Exhausted
    else if IsTaken(taken, s.i) then Running(Add(s.i, 1))
    else Found(s.i)
  }

  function After(taken: Taken, finish: u32, s: Loop, n: nat): Loop
    decreases n
  {
    if n == 0 then s else After(taken, finish, Iterate(taken, finish, s), n - 1)
  }

  predicate NeverReturns(taken: Taken, finish: u32) {
    finish == MAX && forall v: u32 :: IsTaken(taken, v)
  }

  /** How far the counter is from `target`, going up and around. */
  function Distance(i: u32, target: u32): nat {
    if i <= target then target - i else MODULUS - i + target
  }

  lemma {:induction false} ReachesFree(taken: Taken, finish: u32, i: u32, target: u32) returns (n: nat)
    requires finish == MAX && !IsTaken(taken, target)
    ensures !After(taken, finish, Running(i), n).Running?
    decreases Distance(i, target)
  {
    if !IsTaken(taken, i) {
      assert After(taken, finish, Found(i), 0) == Found(i);
      n := 1;
    } else {
      AddOne(i);
      n := ReachesFree(taken, finish, Add(i, 1), target);
      n := n + 1;
    }
  }

  lemma {:induction false} ReachesEnd(taken: Taken, finish: u32, i: u32) returns (n: nat)
    requires finish < MAX
    ensures !After(taken, finish, Running(i), n).Running?
    decreases MAX - i
  {
    if i > finish || !IsTaken(taken, i) {
      var next := Iterate(taken, finish, Running(i));
      assert After(taken, finish, next, 0) == next;
      n := 1;
    } else {
      n := ReachesEnd(taken, finish, Add(i, 1));
      n := n + 1;
    }
  }

  lemma {:induction false} RunsForEver(taken: Taken, finish: u32, i: u32, n: nat)
    requires NeverReturns(taken, finish)
    ensures After(taken, finish, Running(i), n).Running?
    decreases n
  {
    if n > 0 {
      RunsForEver(taken, finish, Add(i, 1), n - 1);
    }
  }

  /** Where the loop stops is what the search says: found there, or exhausted. */
  lemma {:induction false} LoopFinds(taken: Taken, finish: u32, i: u32, n: nat)
    ensures var s := After(taken, finish, Running(i), n);
            && (s.Found? ==> Search(taken, i, finish) == Some(s.i))
            && (s.Exhausted? ==> Search(taken, i, finish) == None)
    decreases n
  {
    if n > 0 {
      if i > finish {
        AfterStopped(taken, finish, Exhausted, n - 1);
      } else if !IsTaken(taken, i) {
        AfterStopped(taken, finish, Found(i), n - 1);
      } else {
        AddOne(i);
        LoopFinds(taken, finish, Add(i, 1), n - 1);
        SearchFromNext(taken, i, finish);
      }
    }
  }

  lemma {:induction false} AfterStopped(taken: Taken, finish: u32, s: Loop, n: nat)
    requires !s.Running?
    ensures After(taken, finish, s, n) == s
    decreases n
  {
    if n > 0 {
      AfterStopped(taken, finish, s, n - 1);
    }
  }

  /** A taken address does not change what is found from it on. */
  lemma SearchFromNext(taken: Taken, i: u32, finish: u32)
    requires i <= finish && IsTaken(taken, i)
    ensures Search(taken, i, finish) == Search(taken, Add(i, 1), finish)
  {
    hide IsTaken;
    AddOne(i);
  }

  /** The loop hangs exactly when its bound is 255.255.255.255 and every address there is, is taken. */
  lemma DivergesIff(taken: Taken, finish: u32, start: u32)
    ensures (forall n: nat :: After(taken, finish, Running(start), n).Running?) <==> NeverReturns(taken, finish)
  {
    if NeverReturns(taken, finish) {
      forall n: nat ensures After(taken, finish, Running(start), n).Running? {
        RunsForEver(taken, finish, start, n);
      }
    } else if finish < MAX {
      var n := ReachesEnd(taken, finish, start);
    } else {
      var target: u32 :| !IsTaken(taken, target);
      var n := ReachesFree(taken, finish, start, target);
    }
  }

  // ---------- One allocation ----------

  function FirstFree(taken: Taken, lo: nat, hi: u32): (r: Option<u32>)
    ensures r.Some? ==> lo <= r.value <= hi && !IsTaken(taken, r.value)
    ensures forall v: u32 | lo <= v <= hi && (r.Some? ==> v < r.value) :: IsTaken(taken, v)
    decreases hi + 1 - lo
  {
    if lo > hi then None else if !IsTaken(taken, lo) then Some(lo) else FirstFree(taken, lo + 1, hi)
  }

  /** The address found; past a bound of 255.255.255.255 the counter restarts at 0.0.0.0. */
  function Search(taken: Taken, start: u32, finish: u32): Option<u32> {
    var first := FirstFree(taken, start, finish);
    if first.None? && finish == MAX then FirstFree(taken, 0, MAX) else first
  }

  lemma FirstFreeUnique(taken: Taken, lo: nat, hi: u32, a: u32)
    requires lo <= a <= hi && !IsTaken(taken, a)
    requires forall v: u32 | lo <= v < a :: IsTaken(taken, v)
    ensures FirstFree(taken, lo, hi) == Some(a)
  {
  }

  lemma NoneFree(taken: Taken, lo: nat, hi: u32)
    requires forall v: u32 | lo <= v <= hi :: IsTaken(taken, v)
    ensures FirstFree(taken, lo, hi).None?
  {
  }

  function Allocate(taken: Taken, start: u32, finish: u32): (Option<u32>, Taken) {
    match Search(taken, start, finish)
    case Some(a) => (Some(a), taken[Key(a) := true])
    case None => (None, taken)
  }

  /** A success adds exactly the address handed out, which was free; a failure changes nothing. */
  lemma AllocateRefinesSet(taken: Taken, start: u32, finish: u32)
    ensures var (a, after) := Allocate(taken, start, finish);
            if a.None? then after == taken
            else a.value !in TakenSet(taken) && TakenSet(after) == TakenSet(taken) + {a.value}
  {
    var found := Search(taken, start, finish);
    if found.Some? {
      MarkingAddsOne(taken, found.value);
    }
  }

  /**
    The same in terms of the map's own keys: an address is free if its text is absent or marked
    false. What is handed out is free, and everything from the start of the range to it is not,
    or everything in the range is not and it wrapped; its text is the only entry that changes.
   */
  lemma AllocateByText(taken: Taken, start: u32, finish: u32)
    ensures var (r, after) := Allocate(taken, start, finish);
            && (r.None? ==>
                  && after == taken
                  && forall v: u32 | start <= v <= finish :: Key(v) in taken && taken[Key(v)])
            && (r.Some? ==>
                  && after == taken[Key(r.value) := true]
                  && !(Key(r.value) in taken && taken[Key(r.value)])
                  && (start <= r.value <= finish || finish == MAX)
                  && forall v: u32 | start <= v <= finish && (v < r.value || r.value < start) ::
                       Key(v) in taken && taken[Key(v)])
  {
    hide Key;
    var (r, after) := Allocate(taken, start, finish);
    forall v: u32 | start <= v <= finish && (r.Some? ==> v < r.value || r.value < start)
      ensures Key(v) in taken && taken[Key(v)]
    {
      assert IsTaken(taken, v);
    }
  }

  /** The caller's map, which every call updates in place. */
  class TakenIps {
    var taken: Taken

    constructor (taken: Taken)
      ensures this.taken == taken
    {
      this.taken := taken;
    }
  }

  method PutUint32(buf: array<Octet>, v: u32)
    requires buf.Length >= 4
    modifies buf
    ensures buf[..4] == Octets(v)
    ensures forall i | 4 <= i < buf.Length :: buf[i] == old(buf[i])
  {
    buf[0], buf[1], buf[2], buf[3] := v / 0x100_0000, v / 0x1_0000 % 0x100, v / 0x100 % 0x100, v % 0x100;
  }

  /** Called on any input on which the loop ends at all. */
  method GetFreeIpAddrFromSubnet(takenIps: TakenIps, subnet: IPNet) returns (r: Option<seq<Octet>>)
    requires |subnet.ip| >= 4 && |subnet.mask| >= 4
    requires !NeverReturns(takenIps.taken, Finish(NetworkAddress(subnet), BigEndian(subnet.mask)))
    modifies takenIps
    ensures var ip := NetworkAddress(subnet);
            var (a, after) := Allocate(old(takenIps.taken), Start(ip), Finish(ip, BigEndian(subnet.mask)));
            && r == (if a.Some? then Some(Octets(a.value)) else None)
            && takenIps.taken == after
  {
    hide Finish, BigEndian, Dotted, Octets, FirstFree, TakenSet;
    var mask := BigEndian(subnet.mask);
    var subnetIp := subnet.ip;
    var intIp: u32;
    if |subnetIp| == 16 {
      intIp := BigEndian(subnetIp[12..16]);
    } else {
      intIp := BigEndian(subnetIp);
    }
    var start: u32 := Add(intIp, 1);
    var finish: u32 := Finish(intIp, mask);
    ghost var taken := takenIps.taken;
    ghost var free: u32 :| finish == MAX ==> !IsTaken(taken, free);
    ghost var wrapped := false;
    var i: u32 := start;
    while i <= finish
      invariant takenIps.taken == taken
      invariant !wrapped ==> start <= i && forall v: u32 | start <= v < i :: IsTaken(taken, v)
      invariant wrapped ==> finish == MAX && forall v: u32 | start <= v || v < i :: IsTaken(taken, v)
      decreases if wrapped then 0 else 1, finish + 1 - i
    {
      var ip := new Octet[4];
      PutUint32(ip, i);
      assert ip[..] == ip[..4];
      var ipStr := Dotted(ip[..]);
      if !(ipStr in takenIps.taken && takenIps.taken[ipStr]) {
        if wrapped {
          FirstFreeUnique(taken, 0, MAX, i);
        } else {
          FirstFreeUnique(taken, start, finish, i);
        }
        takenIps.taken := takenIps.taken[ipStr := true];
        return Some(ip[..]);
      }
      AddOne(i);
      wrapped := wrapped || i == MAX;
      i := Add(i, 1);
    }
    NoneFree(taken, start, finish);
    r := None;
  }

  lemma SearchDecides(taken: Taken, start: u32, finish: u32)
    ensures var r := Search(taken, start, finish);
            && (SomeFree(taken, start, finish) ==> r.Some? && start <= r.value <= finish)
            && (!SomeFree(taken, start, finish) && r.Some? ==> finish == MAX && r.value < start)
            && (r.Some? && (r.value < start || start == 0) ==>
                  forall v: u32 | v < r.value :: IsTaken(taken, v))
            && (r.Some? ==> !IsTaken(taken, r.value))
  {
    hide IsTaken;
  }

  predicate SomeFree(taken: Taken, lo: nat, hi: u32) {
    exists v: u32 :: lo <= v <= hi && !IsTaken(taken, v)
  }

  predicate AllTakenUpTo(taken: Taken, v: u32) {
    forall w: u32 | w <= v :: IsTaken(taken, w)
  }

  /**
    For every address of the subnet, host bits set or not: the address handed out is a host of
    its subnet exactly when the search starts inside it and finds one there, or finds one only
    by wrapping to the subnet from below. From the last address of a subnet it starts in the
    next one, so the first case needs that to be the subnet itself, the whole address space.
   */
  lemma HandsOutHostIff(taken: Taken, ip: u32, k: nat)
    requires k <= 32
    ensures var base := ClearLow(ip, k);
            var last := base + Pow2(k) - 1;
            var start, finish := Start(ip), Finish(ip, NetworkMask(k));
            var r := Search(taken, start, finish);
            r.Some? ==>
              (base < r.value <= last <==>
                 if SomeFree(taken, start, finish) then ip < last || (k == 32 && IsTaken(taken, 0))
                 else AllTakenUpTo(taken, base))
  {
    hide Finish, NetworkMask, Search, SomeFree, IsTaken, AllTakenUpTo;
    var base := ClearLow(ip, k);
    var last := base + Pow2(k) - 1;
    var start, finish := Start(ip), Finish(ip, NetworkMask(k));
    Pow2Of32();
    BlockFits(ip, k, 32);
    FinishIsBlockEnd(ip, k);
    SearchDecides(taken, start, finish);
    var r := Search(taken, start, finish);
    if r.Some? {
      AddOne(ip);
      NextInBlock(ip, k);
      if SomeFree(taken, start, finish) {
        if ip == last && k == 32 {
          ZeroFirst(taken, r.value);
        } else if ip == MAX {
          ClearLowOfZero(k);
          BlockIsNotFirst(k);
        }
      } else {
        AllBelowDecides(taken, base, r.value);
      }
    }
  }

  lemma ZeroFirst(taken: Taken, a: u32)
    requires !IsTaken(taken, a) && forall v: u32 | v < a :: IsTaken(taken, v)
    ensures a > 0 <==> IsTaken(taken, 0)
  {
  }

  lemma AllBelowDecides(taken: Taken, base: u32, a: u32)
    requires !IsTaken(taken, a) && forall v: u32 | v < a :: IsTaken(taken, v)
    ensures base < a <==> AllTakenUpTo(taken, base)
  {
  }

  /**
    On a network address the address handed out is one of the subnet's hosts exactly when the subnet has
    host bits and, if it ends at 255.255.255.255, something after its first address is free.
   */
  lemma HandsOutSubnetAddressIff(taken: Taken, base: u32, k: nat)
    requires k <= 32 && Aligned(base, k)
    ensures var r := Search(taken, Start(base), Finish(base, NetworkMask(k)));
            var last := base + Pow2(k) - 1;
            r.Some? ==>
              (base < r.value <= last <==>
                 k >= 1 && (last < MAX || exists v: u32 :: base < v <= last && !IsTaken(taken, v)))
  {
    hide Finish, NetworkMask;
    if k == 0 {
      FinishOfSingleAddress(base);
    } else {
      FinishOfNetwork(base, k);
      var last: u32 := base + Pow2(k) - 1;
    }
  }

  /**
    A full subnet ending at 255.255.255.255: the counter wraps, and what is handed out is the
    lowest free address of all, outside the subnet. With 0.0.0.0 free it is that one.
   */
  lemma FullTopSubnetStartsOver(taken: Taken, base: u32, k: nat)
    requires 1 <= k <= 32 && Aligned(base, k) && base + Pow2(k) - 1 == MAX
    requires forall v: u32 | base < v :: IsTaken(taken, v)
    ensures var r := Search(taken, Start(base), Finish(base, NetworkMask(k)));
            && (r.Some? <==> exists v: u32 :: !IsTaken(taken, v))
            && (r.Some? ==> r.value <= base && forall v: u32 | v < r.value :: IsTaken(taken, v))
            && (!IsTaken(taken, 0) ==> r == Some(0))
  {
    hide Finish, NetworkMask;
    FinishOfNetwork(base, k);
    NoneFree(taken, base + 1, MAX);
  }

  // ---------- Whole runs ----------

  /** The results of `n` successive calls on one map. */
  function Run(taken: Taken, start: u32, finish: u32, n: nat): (rs: seq<Option<u32>>)
    ensures |rs| == n
    decreases n
  {
    if n == 0 then []
    else
      var (r, after) := Allocate(taken, start, finish);
      [r] + Run(after, start, finish, n - 1)
  }

  /** The free addresses of a range, lowest first. */
  function FreeList(taken: Taken, lo: nat, hi: u32): seq<u32>
    decreases hi + 1 - lo
  {
    if lo > hi then []
    else (if IsTaken(taken, lo) then [] else [lo]) + FreeList(taken, lo + 1, hi)
  }

  lemma {:induction false} FreeListMember(taken: Taken, lo: nat, hi: u32, v: u32)
    ensures v in FreeList(taken, lo, hi) <==> lo <= v <= hi && !IsTaken(taken, v)
    decreases hi + 1 - lo
  {
    hide IsTaken;
    if lo <= hi {
      FreeListMember(taken, lo + 1, hi, v);
    }
  }

  lemma FreeListMembers(taken: Taken, lo: nat, hi: u32)
    ensures forall v: u32 :: v in FreeList(taken, lo, hi) <==> lo <= v <= hi && !IsTaken(taken, v)
  {
    hide IsTaken, FreeList;
    forall v: u32 ensures v in FreeList(taken, lo, hi) <==> lo <= v <= hi && !IsTaken(taken, v) {
      FreeListMember(taken, lo, hi, v);
    }
  }

  predicate Increasing(fs: seq<u32>) {
    forall i, j | 0 <= i < j < |fs| :: fs[i] < fs[j]
  }

  lemma IncreasingCons(lo: u32, rest: seq<u32>)
    requires Increasing(rest) && forall i | 0 <= i < |rest| :: lo < rest[i]
    ensures Increasing([lo] + rest)
  {
    var all := [lo] + rest;
    forall i, j | 0 <= i < j < |all| ensures all[i] < all[j] {
      assert all[j] == rest[j - 1];
      assert i > 0 ==> all[i] == rest[i - 1];
    }
  }

  lemma {:induction false} FreeListIncreases(taken: Taken, lo: nat, hi: u32)
    ensures Increasing(FreeList(taken, lo, hi))
    decreases hi + 1 - lo
  {
    hide IsTaken, Increasing;
    if lo <= hi {
      FreeListIncreases(taken, lo + 1, hi);
      var rest := FreeList(taken, lo + 1, hi);
      forall i | 0 <= i < |rest| ensures lo < rest[i] {
        assert rest[i] in rest;
        FreeListMember(taken, lo + 1, hi, rest[i]);
      }
      IncreasingCons(lo, rest);
      assert [] + rest == rest;
    } else {
      NoneIncrease();
    }
  }

  lemma NoneIncrease()
    ensures Increasing([])
  {
  }

  lemma {:induction false} FirstFreeIsHead(taken: Taken, lo: nat, hi: u32)
    ensures var fs := FreeList(taken, lo, hi);
            FirstFree(taken, lo, hi) == if fs == [] then None else Some(fs[0])
    decreases hi + 1 - lo
  {
    if lo <= hi && IsTaken(taken, lo) {
      FirstFreeIsHead(taken, lo + 1, hi);
    }
  }

  lemma MarkingOnlyItself(taken: Taken, a: u32, v: u32)
    ensures IsTaken(taken[Key(a) := true], v) <==> v == a || IsTaken(taken, v)
  {
    if Key(v) == Key(a) {
      KeyInjective(v, a);
    }
  }

  lemma {:induction false} MarkingBelowKeepsFreeList(taken: Taken, a: u32, lo: nat, hi: u32)
    requires a < lo
    ensures FreeList(taken[Key(a) := true], lo, hi) == FreeList(taken, lo, hi)
    decreases hi + 1 - lo
  {
    hide Key, IsTaken;
    if lo <= hi {
      MarkingOnlyItself(taken, a, lo);
      MarkingBelowKeepsFreeList(taken, a, lo + 1, hi);
    }
  }

  lemma {:induction false} MarkingHeadDropsIt(taken: Taken, lo: nat, hi: u32)
    requires FreeList(taken, lo, hi) != []
    ensures var fs := FreeList(taken, lo, hi);
            FreeList(taken[Key(fs[0]) := true], lo, hi) == fs[1..]
    decreases hi + 1 - lo
  {
    hide Key, IsTaken;
    var head := FreeList(taken, lo, hi)[0];
    MarkingOnlyItself(taken, head, lo);
    if IsTaken(taken, lo) {
      MarkingHeadDropsIt(taken, lo + 1, hi);
    } else {
      MarkingBelowKeepsFreeList(taken, lo, lo + 1, hi);
    }
  }

  lemma {:induction false} MarkingAboveKeepsFreeList(taken: Taken, a: u32, lo: nat, hi: u32)
    requires hi < a
    ensures FreeList(taken[Key(a) := true], lo, hi) == FreeList(taken, lo, hi)
    decreases hi + 1 - lo
  {
    hide Key, IsTaken;
    if lo <= hi {
      MarkingOnlyItself(taken, a, lo);
      MarkingAboveKeepsFreeList(taken, a, lo + 1, hi);
    }
  }

  /**
    What a search can find, in the order in which successive calls do: the free addresses of
    the range and, if it ends at 255.255.255.255, those below its start after them.
   */
  function Candidates(taken: Taken, start: u32, finish: u32): seq<u32> {
    FreeList(taken, start, finish) + if finish == MAX && start > 0 then FreeList(taken, 0, start - 1) else []
  }

  lemma NoCandidates(taken: Taken, start: u32, finish: u32)
    ensures Candidates(taken, start, finish) == [] <==>
            forall v: u32 :: start <= v <= finish || (finish == MAX && v < start) ==> IsTaken(taken, v)
  {
    hide IsTaken, FreeList;
    FreeListMembers(taken, start, finish);
    if start > 0 {
      FreeListMembers(taken, 0, start - 1);
    }
    var fs := Candidates(taken, start, finish);
    if fs != [] {
      assert fs[0] in fs;
      assert start <= fs[0] <= finish || (finish == MAX && fs[0] < start);
    }
  }

  /** Past the end of the range the search goes on with the lowest free address. */
  lemma WrapTakesHead(taken: Taken, start: u32)
    requires FreeList(taken, start, MAX) == []
    ensures var fs := Candidates(taken, start, MAX);
            FirstFree(taken, 0, MAX) == if fs == [] then None else Some(fs[0])
  {
    hide IsTaken, FreeList, FirstFree;
    FreeListMembers(taken, start, MAX);
    if start > 0 {
      FirstFreeIsHead(taken, 0, start - 1);
      var below := FirstFree(taken, 0, start - 1);
      if below.Some? {
        FirstFreeUnique(taken, 0, MAX, below.value);
      } else {
        NoneFree(taken, 0, MAX);
      }
    } else {
      NoneFree(taken, 0, MAX);
    }
  }

  lemma AllocateTakesHead(taken: Taken, start: u32, finish: u32)
    ensures var fs := Candidates(taken, start, finish);
            var (r, after) := Allocate(taken, start, finish);
            if fs == [] then r.None? && after == taken
            else r == Some(fs[0]) && Candidates(after, start, finish) == fs[1..]
  {
    hide Key, IsTaken, FreeList, FirstFree;
    var fs := FreeList(taken, start, finish);
    FirstFreeIsHead(taken, start, finish);
    if fs != [] {
      MarkingHeadDropsIt(taken, start, finish);
      FreeListMember(taken, start, finish, fs[0]);
      if start > 0 {
        MarkingAboveKeepsFreeList(taken, fs[0], 0, start - 1);
      }
    } else if finish == MAX {
      WrapTakesHead(taken, start);
      if start > 0 && FreeList(taken, 0, start - 1) != [] {
        var head := FreeList(taken, 0, start - 1)[0];
        MarkingHeadDropsIt(taken, 0, start - 1);
        FreeListMember(taken, 0, start - 1, head);
        MarkingBelowKeepsFreeList(taken, head, start, finish);
      }
    }
  }

  lemma {:induction false} RunTakesCandidates(taken: Taken, start: u32, finish: u32, n: nat, j: nat)
    requires j < n
    ensures var fs := Candidates(taken, start, finish);
            Run(taken, start, finish, n)[j] == if j < |fs| then Some(fs[j]) else None
    decreases n
  {
    hide Candidates, Allocate;
    AllocateTakesHead(taken, start, finish);
    if j > 0 {
      RunTakesCandidates(Allocate(taken, start, finish).1, start, finish, n - 1, j - 1);
    }
  }

  /** The map after `n` successive calls. */
  function TakenAfter(taken: Taken, start: u32, finish: u32, n: nat): Taken
    decreases n
  {
    if n == 0 then taken else TakenAfter(Allocate(taken, start, finish).1, start, finish, n - 1)
  }

  lemma {:induction false} CandidatesLeft(taken: Taken, start: u32, finish: u32, n: nat)
    ensures var fs := Candidates(taken, start, finish);
            Candidates(TakenAfter(taken, start, finish, n), start, finish) == fs[if n <= |fs| then n else |fs|..]
    decreases n
  {
    hide Candidates, Allocate;
    if n > 0 {
      AllocateTakesHead(taken, start, finish);
      CandidatesLeft(Allocate(taken, start, finish).1, start, finish, n - 1);
    }
  }

  /** The call after `n` others hangs exactly when the range ends at the top and they took everything. */
  lemma CallHangsIff(taken: Taken, start: u32, finish: u32, n: nat)
    ensures NeverReturns(TakenAfter(taken, start, finish, n), finish) <==>
            finish == MAX && n >= |Candidates(taken, start, finish)|
  {
    hide Candidates, IsTaken;
    CandidatesLeft(taken, start, finish, n);
    NoCandidates(TakenAfter(taken, start, finish, n), start, finish);
  }

  /** First the addresses of `free` in order, then no more. */
  predicate Enumerates(rs: seq<Option<u32>>, free: seq<u32>) {
    forall j | 0 <= j < |rs| :: rs[j] == if j < |free| then Some(free[j]) else None
  }

  lemma RunEnumerates(taken: Taken, start: u32, finish: u32, n: nat)
    ensures Enumerates(Run(taken, start, finish, n), Candidates(taken, start, finish))
  {
    hide Candidates, Run;
    var fs := Candidates(taken, start, finish);
    forall j | 0 <= j < n
      ensures Run(taken, start, finish, n)[j] == if j < |fs| then Some(fs[j]) else None
    {
      RunTakesCandidates(taken, start, finish, n, j);
    }
  }

  ghost function TakenInRange(taken: Taken, lo: nat, hi: u32): set<u32> {
    set v: u32 | lo <= v <= hi && IsTaken(taken, v)
  }

  lemma {:induction false} FreeListCount(taken: Taken, lo: nat, hi: u32)
    requires lo <= hi + 1
    ensures |FreeList(taken, lo, hi)| == hi + 1 - lo - |TakenInRange(taken, lo, hi)|
    decreases hi + 1 - lo
  {
    hide IsTaken;
    var here := TakenInRange(taken, lo, hi);
    if lo > hi {
      assert here == {};
    } else {
      FreeListCount(taken, lo + 1, hi);
      var above := TakenInRange(taken, lo + 1, hi);
      assert here == if IsTaken(taken, lo) then above + {lo} else above;
    }
  }

  /**
    Successive calls for a network with host bits hand out its free host addresses, each once
    and in increasing order; as many as there are hosts less those taken beforehand. After
    them they fail for ever, unless the network ends at 255.255.255.255: then they go on with
    the free addresses up to its base, and the first call after those never returns.
   */
  lemma NetworkRun(taken: Taken, base: u32, k: nat, n: nat)
    requires 1 <= k <= 32 && Aligned(base, k)
    ensures base + Pow2(k) <= MODULUS
    ensures var last: u32 := base + Pow2(k) - 1;
            var free := FreeList(taken, base + 1, last);
            var outside := if last == MAX then FreeList(taken, 0, base) else [];
            var start, finish := Start(base), Finish(base, NetworkMask(k));
            && Enumerates(Run(taken, start, finish, n), free + outside)
            && (forall v: u32 :: v in free <==> base < v <= last && !IsTaken(taken, v))
            && Increasing(free)
            && |free| == Pow2(k) - 1 - |TakenInRange(taken, base + 1, last)|
            && (NeverReturns(TakenAfter(taken, start, finish, n), finish) <==>
                  last == MAX && n >= |free + outside|)
  {
    hide *;
    FinishOfNetwork(base, k);
    var last: u32 := base + Pow2(k) - 1;
    NetworkCandidates(taken, base, last);
    RunEnumerates(taken, base + 1, last, n);
    CallHangsIff(taken, base + 1, last, n);
    FreeListMembers(taken, base + 1, last);
    FreeListIncreases(taken, base + 1, last);
    FreeListCount(taken, base + 1, last);
  }

  lemma NetworkCandidates(taken: Taken, base: u32, last: u32)
    requires base < last
    ensures Candidates(taken, base + 1, last)
         == FreeList(taken, base + 1, last) + if last == MAX then FreeList(taken, 0, base) else []
  {
  }
}
