/** The client address behind trusted proxies. */
module ClientIp {
  import opened Wrappers
  import RangeHeader

  // ---------- Machine words ----------

  // Words are numbers below 2^width; their operators are written out bit by bit.
  function Pow2(n: nat): (p: nat)
    ensures p >= 1
  {
    if n == 0 then 1 else 2 * Pow2(n - 1)
  }

  function And(a: nat, b: nat): nat {
    if a == 0 || b == 0 then 0 else 2 * And(a / 2, b / 2) + (a % 2) * (b % 2)
  }

  // a shifted left by s; bits beyond the width are lost.
  function ShiftLeft(a: nat, s: nat, width: nat): nat
    requires a < Pow2(width)
    decreases s
  {
    if s == 0 then a
    else
      var twice := if 2 * a < Pow2(width) then 2 * a else 2 * a - Pow2(width);
      ShiftLeft(twice, s - 1, width)
  }

  function ShiftRight(a: nat, s: nat): nat {
    if s == 0 then a else ShiftRight(a / 2, s - 1)
  }

  // Bit k, counted from the low end.
  function Bit(a: nat, k: nat): nat {
    ShiftRight(a, k) % 2
  }

  // ---------- Address blocks ----------

  datatype Family = V4 | V6

  function Width(f: Family): nat {
    if f.V4? then 32 else 128
  }

  type Ip = x: Address | x.bits < Pow2(Width(x.family)) witness Address(V4, 0)

  datatype Address = Address(family: Family, bits: nat)

  function MaskOf(width: nat, prefix: nat): nat
    requires prefix <= width
  {
    if prefix == 0 then 0 else ShiftLeft(Pow2(width) - 1, width - prefix, width)
  }

  datatype IpCidr = IpCidr(network: Ip, prefix: nat) {
    // What parsing guarantees.
    predicate Valid() {
      prefix <= Width(network.family)
    }

    function Mask(): nat
      requires Valid()
    {
      MaskOf(Width(network.family), prefix)
    }

    predicate Contains(ip: Ip)
      requires Valid()
    {
      network.family == ip.family && And(network.bits, Mask()) == And(ip.bits, Mask())
    }
  }

  // Ones in the bits from s up to width.
  function HighOnes(width: nat, s: nat): nat {
    if width == 0 then 0 else if s == 0 then 2 * HighOnes(width - 1, 0) + 1 else 2 * HighOnes(width - 1, s - 1)
  }

  lemma {:induction false} AllOnes(width: nat)
    ensures HighOnes(width, 0) == Pow2(width) - 1
    decreases width
  {
    if width > 0 {
      AllOnes(width - 1);
    }
  }

  // Doubling moves the ones up by one; the topmost falls out of the width.
  lemma {:induction false} DoubleOnes(width: nat, s: nat)
    requires s < width
    ensures 2 * HighOnes(width, s) == HighOnes(width, s + 1) + Pow2(width)
    ensures HighOnes(width, s + 1) < Pow2(width)
    decreases width
  {
    if s == 0 {
      AllOnes(width);
      AllOnes(width - 1);
    } else {
      DoubleOnes(width - 1, s - 1);
    }
  }

  lemma {:induction false} ShiftedOnes(width: nat, s: nat, n: nat)
    requires s + n <= width && HighOnes(width, s) < Pow2(width)
    ensures ShiftLeft(HighOnes(width, s), n, width) == HighOnes(width, s + n)
    decreases n
  {
    if n > 0 {
      DoubleOnes(width, s);
      ShiftedOnes(width, s + 1, n - 1);
    }
  }

  lemma {:induction false} AndAllOnes(a: nat, width: nat)
    requires a < Pow2(width)
    ensures And(a, HighOnes(width, 0)) == a
    decreases width
  {
    if width > 0 {
      AndAllOnes(a / 2, width - 1);
    }
  }

  // Words agree under the mask exactly if they agree above s.
  lemma {:induction false} MaskedEqual(a: nat, b: nat, width: nat, s: nat)
    requires a < Pow2(width) && b < Pow2(width) && s <= width
    ensures And(a, HighOnes(width, s)) == And(b, HighOnes(width, s)) <==> ShiftRight(a, s) == ShiftRight(b, s)
    decreases s
  {
    if s == 0 {
      AndAllOnes(a, width);
      AndAllOnes(b, width);
    } else {
      MaskedEqual(a / 2, b / 2, width - 1, s - 1);
      AndDoubled(a, HighOnes(width - 1, s - 1));
      AndDoubled(b, HighOnes(width - 1, s - 1));
    }
  }

  lemma AndDoubled(a: nat, m: nat)
    ensures And(a, 2 * m) == 2 * And(a / 2, m)
  {
    if a != 0 && m != 0 {
      assert 2 * m / 2 == m && 2 * m % 2 == 0;
      assert And(a, 2 * m) == 2 * And(a / 2, m) + (a % 2) * 0;
    }
  }

  lemma {:induction false} SameBits(a: nat, b: nat, width: nat)
    requires a < Pow2(width) && b < Pow2(width)
    ensures a == b <==> forall k: nat :: k < width ==> Bit(a, k) == Bit(b, k)
    decreases width
  {
    if width > 0 {
      SameBits(a / 2, b / 2, width - 1);
      if forall k: nat :: k < width ==> Bit(a, k) == Bit(b, k) {
        assert Bit(a, 0) == Bit(b, 0);
        forall k: nat | k < width - 1 ensures Bit(a / 2, k) == Bit(b / 2, k) {
          assert Bit(a, k + 1) == Bit(b, k + 1);
        }
      }
    }
  }

  lemma {:induction false} SameHighBits(a: nat, b: nat, width: nat, s: nat)
    requires a < Pow2(width) && b < Pow2(width) && s <= width
    ensures ShiftRight(a, s) == ShiftRight(b, s) <==> forall k: nat :: s <= k < width ==> Bit(a, k) == Bit(b, k)
    decreases s
  {
    if s == 0 {
      SameBits(a, b, width);
    } else {
      SameHighBits(a / 2, b / 2, width - 1, s - 1);
      if forall k: nat :: s - 1 <= k < width - 1 ==> Bit(a / 2, k) == Bit(b / 2, k) {
        forall k: nat | s <= k < width ensures Bit(a, k) == Bit(b, k) {
          assert Bit(a / 2, k - 1) == Bit(b / 2, k - 1);
        }
      }
      if forall k: nat :: s <= k < width ==> Bit(a, k) == Bit(b, k) {
        forall k: nat | s - 1 <= k < width - 1 ensures Bit(a / 2, k) == Bit(b / 2, k) {
          assert Bit(a, k + 1) == Bit(b, k + 1);
        }
      }
    }
  }

  // Words agree under the mask of a prefix exactly if their top bits do.
  lemma MaskAgrees(a: nat, b: nat, width: nat, prefix: nat)
    requires a < Pow2(width) && b < Pow2(width) && prefix <= width
    ensures And(a, MaskOf(width, prefix)) == And(b, MaskOf(width, prefix))
            <==> forall k: nat :: width - prefix <= k < width ==> Bit(a, k) == Bit(b, k)
  {
    if prefix > 0 {
      AllOnes(width);
      ShiftedOnes(width, 0, width - prefix);
      MaskedEqual(a, b, width, width - prefix);
      SameHighBits(a, b, width, width - prefix);
    }
  }

  /** A block contains an address exactly if the families are the same and the
      top `prefix` bits agree, for both widths and every prefix. */
  lemma ContainsExactly(cidr: IpCidr, ip: Ip)
    requires cidr.Valid()
    ensures cidr.Contains(ip)
            <==> ip.family == cidr.network.family
                 && forall k: nat :: Width(ip.family) - cidr.prefix <= k < Width(ip.family) ==>
                      Bit(cidr.network.bits, k) == Bit(ip.bits, k)
  {
    if ip.family == cidr.network.family {
      MaskAgrees(cidr.network.bits, ip.bits, Width(ip.family), cidr.prefix);
    }
  }

  // ---------- The forwarding chain ----------

  predicate AllValid(trusted: seq<IpCidr>) {
    forall i :: 0 <= i < |trusted| ==> trusted[i].Valid()
  }

  predicate IsTrusted(ip: Ip, trusted: seq<IpCidr>)
    requires AllValid(trusted)
  {
    exists i :: 0 <= i < |trusted| && trusted[i].Contains(ip)
  }

  function SplitAll(s: string, sep: char): (parts: seq<string>)
    ensures parts != []
  {
    if s == "" then [""]
    else
      var rest := SplitAll(s[1..], sep);
      if s[0] == sep then [""] + rest else [[s[0]] + rest[0]] + rest[1..]
  }

  function Append(a: Option<seq<Ip>>, b: Option<seq<Ip>>): Option<seq<Ip>> {
    if a.Some? && b.Some? then Some(a.value + b.value) else None
  }

  function ParseOne(part: string, parse: string -> Option<Ip>): Option<seq<Ip>> {
    match parse(RangeHeader.Trim(part))
    case None => None
    case Some(ip) => Some([ip])
  }

  // All parts as addresses, or none if one of them is not an address.
  function ParseAll(parts: seq<string>, parse: string -> Option<Ip>): Option<seq<Ip>> {
    if parts == [] then Some([])
    else Append(ParseAll(parts[..|parts| - 1], parse), ParseOne(parts[|parts| - 1], parse))
  }

  function Hops(value: string, parse: string -> Option<Ip>): Option<seq<Ip>> {
    ParseAll(SplitAll(value, ','), parse)
  }

  // The parts between separators, in order: joined they give the text back, and
  // none holds a separator.
  function JoinAll(parts: seq<string>, sep: char): string
    requires parts != []
  {
    if |parts| == 1 then parts[0] else parts[0] + ([sep] + JoinAll(parts[1..], sep))
  }

  lemma {:induction false} SplitExactly(s: string, sep: char)
    ensures JoinAll(SplitAll(s, sep), sep) == s
    ensures forall i :: 0 <= i < |SplitAll(s, sep)| ==> sep !in SplitAll(s, sep)[i]
    decreases |s|
  {
    if s != "" {
      SplitExactly(s[1..], sep);
      var parts, rest := SplitAll(s, sep), SplitAll(s[1..], sep);
      assert s == [s[0]] + s[1..];
      if s[0] == sep {
        assert parts[1..] == rest;
        assert JoinAll(parts, sep) == "" + ([sep] + s[1..]);
      } else {
        assert parts[1..] == rest[1..];
        if |rest| > 1 {
          Regroup([s[0]], rest[0], [sep] + JoinAll(rest[1..], sep));
        }
      }
    }
  }

  // A list of parts parses exactly if every part does, each to its own address.
  lemma {:induction false} PartsExactly(parts: seq<string>, parse: string -> Option<Ip>)
    ensures (forall i :: 0 <= i < |parts| ==> parse(RangeHeader.Trim(parts[i])).Some?) ==> ParseAll(parts, parse).Some?
    ensures ParseAll(parts, parse).Some? ==>
      |ParseAll(parts, parse).value| == |parts|
      && forall i :: 0 <= i < |parts| ==> parse(RangeHeader.Trim(parts[i])) == Some(ParseAll(parts, parse).value[i])
    decreases |parts|
  {
    if parts != [] {
      var n := |parts| - 1;
      PartsExactly(parts[..n], parse);
      assert forall i :: 0 <= i < n ==> parts[..n][i] == parts[i];
    }
  }

  // So the hops of a header are its parts between commas, or there are none.
  lemma HopsExactly(value: string, parse: string -> Option<Ip>) returns (parts: seq<string>)
    ensures parts != [] && JoinAll(parts, ',') == value && forall i :: 0 <= i < |parts| ==> ',' !in parts[i]
    ensures Hops(value, parse).Some? <==> forall i :: 0 <= i < |parts| ==> parse(RangeHeader.Trim(parts[i])).Some?
    ensures Hops(value, parse).Some? ==>
      |Hops(value, parse).value| == |parts|
      && forall i :: 0 <= i < |parts| ==> parse(RangeHeader.Trim(parts[i])) == Some(Hops(value, parse).value[i])
  {
    parts := SplitAll(value, ',');
    SplitExactly(value, ',');
    PartsExactly(parts, parse);
  }

  // The rightmost address of the chain that is not trusted, or its leftmost.
  function Resolve(chain: seq<Ip>, trusted: seq<IpCidr>): Ip
    requires chain != [] && AllValid(trusted)
  {
    var n := |chain| - 1;
    if n == 0 || !IsTrusted(chain[n], trusted) then chain[n] else Resolve(chain[..n], trusted)
  }

  // `ip` is the last address of the chain that is not trusted, or the first of all
  // if every one is.
  predicate RightmostUntrusted(chain: seq<Ip>, trusted: seq<IpCidr>, ip: Ip)
    requires AllValid(trusted)
  {
    exists j :: 0 <= j < |chain| && chain[j] == ip && (j == 0 || !IsTrusted(chain[j], trusted))
                && forall i :: j < i < |chain| ==> IsTrusted(chain[i], trusted)
  }

  lemma {:induction false} ResolveIsRightmost(chain: seq<Ip>, trusted: seq<IpCidr>) returns (j: nat)
    requires chain != [] && AllValid(trusted)
    ensures j < |chain| && Resolve(chain, trusted) == chain[j]
    ensures forall i :: j < i < |chain| ==> IsTrusted(chain[i], trusted)
    ensures !IsTrusted(chain[j], trusted) || j == 0
    decreases |chain|
  {
    j := |chain| - 1;
    if j > 0 && IsTrusted(chain[j], trusted) {
      j := ResolveIsRightmost(chain[..|chain| - 1], trusted);
    }
  }

  function RealIp(realIp: Option<string>, peer: Ip, parse: string -> Option<Ip>): Ip {
    if realIp.Some? && parse(RangeHeader.Trim(realIp.value)).Some? then parse(RangeHeader.Trim(realIp.value)).value
    else peer
  }

  function ClientOf(
      forwardedFor: Option<string>, realIp: Option<string>, peer: Ip, trusted: seq<IpCidr>, parse: string -> Option<Ip>)
    : Ip
    requires AllValid(trusted)
  {
    if !IsTrusted(peer, trusted) then peer
    else if forwardedFor.Some? && Hops(forwardedFor.value, parse).Some? then
      Resolve(Hops(forwardedFor.value, parse).value + [peer], trusted)
    else RealIp(realIp, peer, parse)
  }

  // Walks the hops from the right as long as the address so far is trusted.
  method WalkHops(hops: seq<Ip>, peer: Ip, trusted: seq<IpCidr>) returns (result: Ip)
    requires AllValid(trusted)
    ensures result == Resolve(hops + [peer], trusted)
  {
    result := peer;
    var left := |hops|;
    ghost var chain := hops + [peer];
    assert chain[..left + 1] == chain;
    while left > 0
      invariant 0 <= left <= |hops|
      invariant result == chain[left] && Resolve(chain, trusted) == Resolve(chain[..left + 1], trusted)
    {
      if !IsTrusted(result, trusted) {
        break;
      }
      assert chain[..left + 1][..left] == chain[..left];
      left := left - 1;
      result := hops[left];
    }
  }

  /** The client address: the chain is the forwarded hops and then the peer. */
  method ClientAddress(
      forwardedFor: Option<string>, realIp: Option<string>, peer: Ip, trusted: seq<IpCidr>, parse: string -> Option<Ip>)
    returns (client: Ip)
    requires AllValid(trusted)
    ensures client == ClientOf(forwardedFor, realIp, peer, trusted, parse)
    ensures !IsTrusted(peer, trusted) ==> client == peer
    ensures IsTrusted(peer, trusted) && forwardedFor.Some? && Hops(forwardedFor.value, parse).Some? ==>
      RightmostUntrusted(Hops(forwardedFor.value, parse).value + [peer], trusted, client)
    ensures IsTrusted(peer, trusted) && (forwardedFor.None? || Hops(forwardedFor.value, parse).None?) ==>
      client == if realIp.Some? && parse(RangeHeader.Trim(realIp.value)).Some?
                then parse(RangeHeader.Trim(realIp.value)).value else peer
  {
    if !IsTrusted(peer, trusted) {
      return peer;
    }
    if forwardedFor.Some? {
      var parsed := Hops(forwardedFor.value, parse);
      if parsed.Some? {
        client := WalkHops(parsed.value, peer, trusted);
        ghost var j := ResolveIsRightmost(parsed.value + [peer], trusted);
        return;
      }
    }
    if realIp.Some? {
      var parsed := parse(RangeHeader.Trim(realIp.value));
      if parsed.Some? {
        return parsed.value;
      }
    }
    client := peer;
  }

  lemma {:induction false} SplitJoined(a: string, b: string, sep: char)
    ensures SplitAll(a + ([sep] + b), sep) == SplitAll(a, sep) + SplitAll(b, sep)
    decreases |a|
  {
    var s := a + ([sep] + b);
    if a == "" {
      assert s == [sep] + b;
      assert s[1..] == b;
    } else {
      assert s[1..] == a[1..] + ([sep] + b) && s[0] == a[0];
      SplitJoined(a[1..], b, sep);
      FirstPart(a[0], SplitAll(a[1..], sep), SplitAll(b, sep), sep);
    }
  }

  lemma FirstPart(c: char, p: seq<string>, q: seq<string>, sep: char)
    requires p != []
    ensures [""] + (p + q) == ([""] + p) + q
    ensures [[c] + (p + q)[0]] + (p + q)[1..] == ([[c] + p[0]] + p[1..]) + q
  {
    assert (p + q)[1..] == p[1..] + q;
  }

  lemma AppendAssociates(a: Option<seq<Ip>>, b: Option<seq<Ip>>, c: Option<seq<Ip>>)
    ensures Append(Append(a, b), c) == Append(a, Append(b, c))
    ensures Append(a, Some([])) == a
  {
    if a.Some? {
      assert a.value + [] == a.value;
      if b.Some? && c.Some? {
        Regroup(a.value, b.value, c.value);
      }
    }
  }

  lemma {:induction false} ParseJoined(p: seq<string>, q: seq<string>, parse: string -> Option<Ip>)
    ensures ParseAll(p + q, parse) == Append(ParseAll(p, parse), ParseAll(q, parse))
    decreases |q|
  {
    if q == [] {
      assert p + q == p;
      AppendAssociates(ParseAll(p, parse), None, None);
    } else {
      var m := |q| - 1;
      assert (p + q)[..|p| + m] == p + q[..m];
      ParseJoined(p, q[..m], parse);
      AppendAssociates(ParseAll(p, parse), ParseAll(q[..m], parse), ParseOne(q[m], parse));
    }
  }

  predicate AnyUntrusted(chain: seq<Ip>, trusted: seq<IpCidr>)
    requires AllValid(trusted)
  {
    exists i :: 0 <= i < |chain| && !IsTrusted(chain[i], trusted)
  }

  lemma ShorterChain(chain: seq<Ip>, trusted: seq<IpCidr>)
    requires AllValid(trusted) && chain != [] && IsTrusted(chain[|chain| - 1], trusted) && AnyUntrusted(chain, trusted)
    ensures AnyUntrusted(chain[..|chain| - 1], trusted)
  {
    var i :| 0 <= i < |chain| && !IsTrusted(chain[i], trusted);
    assert chain[..|chain| - 1][i] == chain[i];
  }

  lemma {:induction false} ResolveIgnoresFront(front: seq<Ip>, chain: seq<Ip>, trusted: seq<IpCidr>)
    requires AllValid(trusted) && AnyUntrusted(chain, trusted)
    ensures Resolve(front + chain, trusted) == Resolve(chain, trusted)
    decreases |chain|
  {
    var n := |chain| - 1;
    if IsTrusted(chain[n], trusted) {
      ShorterChain(chain, trusted);
      assert (front + chain)[..|front| + n] == front + chain[..n];
      ResolveIgnoresFront(front, chain[..n], trusted);
    }
  }

  /** Hops put in front of a chain that has an untrusted address do not change
      the answer as long as all of them are addresses. If one is not, the whole
      header is dropped and the answer comes from the other header or the peer. */
  lemma PrependedHops(
      front: string, value: string, realIp: Option<string>, peer: Ip, trusted: seq<IpCidr>, parse: string -> Option<Ip>)
    requires AllValid(trusted) && Hops(value, parse).Some?
    requires AnyUntrusted(Hops(value, parse).value + [peer], trusted)
    ensures ClientOf(Some(front + "," + value), realIp, peer, trusted, parse)
            == if Hops(front, parse).Some? || !IsTrusted(peer, trusted)
               then ClientOf(Some(value), realIp, peer, trusted, parse)
               else RealIp(realIp, peer, parse)
  {
    SplitJoined(front, value, ',');
    assert front + "," + value == front + ([','] + value);
    ParseJoined(SplitAll(front, ','), SplitAll(value, ','), parse);
    if Hops(front, parse).Some? {
      var hops, before := Hops(value, parse).value, Hops(front, parse).value;
      Regroup(before, hops, [peer]);
      ResolveIgnoresFront(before, hops + [peer], trusted);
    }
  }
}
