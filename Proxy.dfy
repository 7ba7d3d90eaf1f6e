/**
 * `MultiIPProxy`: the per-request decisions of the forward proxy. A request
 * is let through only when its `Proxy-Authorization` header equals the
 * precomputed Basic credentials; each request let through advances a
 * round-robin counter over the source address pool and is sent to the peer
 * built from its URI.
 */
module Proxy {
  import opened Wrappers
  import Utf8
  import Base64
  import opened Target

  // ---------------------------------------------------------------------------
  // Credentials
  // ---------------------------------------------------------------------------

  const BasicPrefix: string := "Basic "

  /**
   * `create_basic_auth_header`: "Basic " followed by the padded standard
   * Base64 of the UTF-8 bytes of `username:password` (section 2 of RFC 7617).
   * Decoding what follows the prefix gives back exactly `username:password`.
   */
  function CreateBasicAuthHeader(username: string, password: string): (h: string)
    ensures |h| >= |BasicPrefix| && h[..|BasicPrefix|] == BasicPrefix
    ensures Base64.Decode(h[|BasicPrefix|..]).Some?
    ensures Utf8.Decode(Base64.Decode(h[|BasicPrefix|..]).value) == Some(username + ":" + password)
  {
    var credentials := username + ":" + password;
    var bytes := Utf8.Encode(credentials);
    var h := BasicPrefix + Base64.Encode(bytes);
    assert h[|BasicPrefix|..] == Base64.Encode(bytes);
    Base64.DecodeEncode(bytes);
    Utf8.DecodeEncode(credentials);
    h
  }

  /** Two credential pairs give the same header exactly when they join to the same `user:pass`. */
  lemma SameHeaderIffSameCredentials(u1: string, p1: string, u2: string, p2: string)
    ensures CreateBasicAuthHeader(u1, p1) == CreateBasicAuthHeader(u2, p2)
            <==> u1 + ":" + p1 == u2 + ":" + p2
  {
    var h1, h2 := CreateBasicAuthHeader(u1, p1), CreateBasicAuthHeader(u2, p2);
    if h1 == h2 {
      assert h1[|BasicPrefix|..] == h2[|BasicPrefix|..];
    }
  }

  /**
   * With user names free of ':' (as section 2 of RFC 7617 requires), the
   * header pins down the user name and the password separately.
   */
  lemma {:induction false} HeaderDeterminesColonFreeUser(u1: string, p1: string, u2: string, p2: string)
    requires ':' !in u1 && ':' !in u2
    ensures CreateBasicAuthHeader(u1, p1) == CreateBasicAuthHeader(u2, p2) <==> u1 == u2 && p1 == p2
  {
    SameHeaderIffSameCredentials(u1, p1, u2, p2);
    if u1 + ":" + p1 == u2 + ":" + p2 {
      SplitAtFirstColon(u1, p1, u2, p2);
    }
  }

  lemma SplitAtFirstColon(u1: string, p1: string, u2: string, p2: string)
    requires ':' !in u1 && ':' !in u2
    requires u1 + ":" + p1 == u2 + ":" + p2
    ensures u1 == u2 && p1 == p2
  {
    var c := u1 + ":" + p1;
    assert c[|u1|] == ':';
    assert c == u2 + ":" + p2;
    assert c[|u2|] == ':';
    assert |u1| == |u2|;
    assert u1 == c[..|u1|] && u2 == c[..|u2|];
    assert p1 == c[|u1| + 1..] && p2 == c[|u2| + 1..];
  }

  /**
   * Without that restriction the header does not: the user `a:b` with the
   * password `c` is accepted wherever the user `a` with the password `b:c` is.
   */
  lemma ColonInUserIsAmbiguous(a: string, b: string, c: string)
    ensures CreateBasicAuthHeader(a + ":" + b, c) == CreateBasicAuthHeader(a, b + ":" + c)
  {
    assert (a + ":" + b) + ":" + c == a + ":" + (b + ":" + c);
  }

  // ---------------------------------------------------------------------------
  // Round-robin rotation (the specification of select_next_ip)
  // ---------------------------------------------------------------------------

  /** `AtomicUsize` holds a 64-bit word; `fetch_add` wraps around at this modulus. */
  const UsizeModulus: nat := 0x1_0000_0000_0000_0000

  /** The counter after one `fetch_add(1)`: one more, or 0 after the largest word. */
  function WrappingIncrement(c: nat): (r: nat)
    requires c < UsizeModulus
    ensures r < UsizeModulus
    ensures c < UsizeModulus - 1 ==> r == c + 1
    ensures c == UsizeModulus - 1 ==> r == 0
  {
    (c + 1) % UsizeModulus
  }

  /**
   * One `fetch_add(1)` on a counter that holds `m` modulo 2^64 leaves it
   * holding `m + 1` modulo 2^64: the counter after `k` calls is `k mod 2^64`.
   */
  lemma IncrementIsModular(m: nat)
    ensures WrappingIncrement(m % UsizeModulus) == (m + 1) % UsizeModulus
  {
    var q, r := m / UsizeModulus, m % UsizeModulus;
    assert m == q * UsizeModulus + r;
    if r < UsizeModulus - 1 {
      DivModUnique(m + 1, UsizeModulus, q, r + 1);
    } else {
      assert m + 1 == (q + 1) * UsizeModulus + 0;
      DivModUnique(m + 1, UsizeModulus, q + 1, 0);
    }
  }

  /**
   * The pool index served by the `i`-th call (0-based) after the counter
   * read `start`: the counter then reads `start + i` modulo 2^64.
   */
  function RotationIndex(start: nat, i: nat, poolSize: nat): (idx: nat)
    requires poolSize > 0
    ensures idx < poolSize
  {
    ((start + i) % UsizeModulus) % poolSize
  }

  /** The addresses that `k` successive calls hand out when the counter starts at `start`. */
  function Rotation(pool: seq<string>, start: nat, k: nat): (ips: seq<string>)
    requires start < UsizeModulus && |pool| > 0
    ensures |ips| == k
    ensures forall i :: 0 <= i < k ==> ips[i] == pool[RotationIndex(start, i, |pool|)]
  {
    if k == 0 then [] else Rotation(pool, start, k - 1) + [pool[RotationIndex(start, k - 1, |pool|)]]
  }

  /** From a fresh counter, call `i` (0-based) gets `pool[i % |pool|]`, for the first 2^64 calls. */
  lemma RotationFromZero(pool: seq<string>, k: nat, i: nat)
    requires |pool| > 0 && i < k <= UsizeModulus
    ensures Rotation(pool, 0, k)[i] == pool[i % |pool|]
  {
    DivModUnique(i, UsizeModulus, 0, i);
  }

  /** The pool indices served by `n` successive calls after the counter read `start`. */
  function Window(start: nat, n: nat): (w: seq<nat>)
    requires start < UsizeModulus && n > 0
    ensures |w| == n && forall i :: 0 <= i < n ==> w[i] == RotationIndex(start, i, n)
  {
    seq(n, i requires 0 <= i < n => RotationIndex(start, i, n))
  }

  /**
   * Any `|pool|` consecutive calls that do not cross the wrap-around hand out
   * every pool index exactly once: no index repeats and every index occurs.
   */
  lemma WindowServesEachIndexOnce(start: nat, n: nat)
    requires n > 0 && start + n <= UsizeModulus
    ensures forall i, j :: 0 <= i < j < n ==> Window(start, n)[i] != Window(start, n)[j]
    ensures forall x :: 0 <= x < n ==> x in Window(start, n)
  {
    var w := Window(start, n);
    forall i, j | 0 <= i < j < n ensures w[i] != w[j] {
      WindowAt(start, n, i);
      WindowAt(start, n, j);
      DistinctResidues(start + i, start + j, n);
    }
    forall x | 0 <= x < n ensures x in w {
      var i := (x - start) % n;
      WindowAt(start, n, i);
      HitResidue(start, x, n);
    }
  }

  /** Within the wrap-around, call `i` after `start` is served index `(start + i) mod n`. */
  lemma WindowAt(start: nat, n: nat, i: nat)
    requires n > 0 && start + n <= UsizeModulus && i < n
    ensures Window(start, n)[i] == (start + i) % n
  {
    DivModUnique(start + i, UsizeModulus, 0, start + i);
  }

  lemma MulAtLeast(k: int, n: nat)
    requires k >= 1
    ensures k * n >= n
  {
    if k > 1 {
      MulAtLeast(k - 1, n);
      assert k * n == (k - 1) * n + n;
    }
  }

  /** Euclidean division is unique: a quotient and remainder in range are THE quotient and remainder. */
  lemma DivModUnique(a: int, n: nat, q: int, r: int)
    requires n > 0 && a == q * n + r && 0 <= r < n
    ensures a % n == r && a / n == q
  {
    var q', r' := a / n, a % n;
    assert a == q' * n + r';
    if q > q' {
      MulAtLeast(q - q', n);
    } else if q < q' {
      MulAtLeast(q' - q, n);
    }
  }

  /** Two numbers less than `n` apart have different remainders modulo `n`. */
  lemma DistinctResidues(a: nat, b: nat, n: nat)
    requires n > 0 && a < b < a + n
    ensures a % n != b % n
  {
    var qa, qb := a / n, b / n;
    var ra, rb := a % n, b % n;
    assert a == qa * n + ra && b == qb * n + rb;
    if ra == rb {
      assert b - a == qb * n - qa * n;
      assert qb * n - qa * n == (qb - qa) * n;
      if qb - qa >= 1 {
        MulAtLeast(qb - qa, n);
      } else {
        MulAtLeast(qa - qb + 1, n);
      }
    }
  }

  /** The call `(x - start) mod n` positions after `start` is served index `x`. */
  lemma HitResidue(start: nat, x: nat, n: nat)
    requires 0 <= x < n
    ensures (start + (x - start) % n) % n == x
  {
    var i := (x - start) % n;
    var q := (x - start) / n;
    assert x - start == q * n + i;
    assert start + i == (-q) * n + x;
    DivModUnique(start + i, n, -q, x);
  }

  /**
   * Across the wrap-around the rotation is not round-robin unless `|pool|`
   * divides 2^64: with three addresses, the call that reads the largest
   * word and the call after it both get index 0.
   */
  lemma WrapRepeatsIndex()
    ensures RotationIndex(UsizeModulus - 1, 0, 3) == 0
    ensures RotationIndex(UsizeModulus - 1, 1, 3) == 0
  {
  }

  /**
   * The end-to-end run: a fresh proxy over three addresses hands out ten
   * requests in order 1, 2, 3, 1, 2, 3, 1, 2, 3, 1.
   */
  lemma TenRequestsOverThreeAddresses()
    ensures Rotation(["1.1.1.1", "2.2.2.2", "3.3.3.3"], 0, 10)
         == ["1.1.1.1", "2.2.2.2", "3.3.3.3", "1.1.1.1", "2.2.2.2",
             "3.3.3.3", "1.1.1.1", "2.2.2.2", "3.3.3.3", "1.1.1.1"]
  {
    var pool := ["1.1.1.1", "2.2.2.2", "3.3.3.3"];
    forall i | 0 <= i < 10 ensures Rotation(pool, 0, 10)[i] == pool[i % 3] {
      RotationFromZero(pool, 10, i);
    }
  }

  /** One more call extends the rotation by the address at the counter's value. */
  lemma RotationStep(pool: seq<string>, m: nat)
    requires |pool| > 0
    ensures Rotation(pool, 0, m + 1) == Rotation(pool, 0, m) + [pool[(m % UsizeModulus) % |pool|]]
    ensures (m + 1) % UsizeModulus == WrappingIncrement(m % UsizeModulus)
  {
    IncrementIsModular(m);
  }

  // ---------------------------------------------------------------------------
  // The proxy object
  // ---------------------------------------------------------------------------

  /** Whether the engine forwards a request, and where. */
  datatype Admission = Challenged | Forwarded(peer: HttpPeer)

  class MultiIPProxy {
    const ipAddresses: seq<string>
    var requestCounter: nat
    const expectedAuthHeader: string

    /** The addresses handed out so far, in call order. */
    ghost var served: seq<string>

    /**
     * The counter is the number of addresses handed out, modulo 2^64, and
     * what was handed out is the rotation from a zero counter.
     */
    ghost predicate Valid()
      reads this
    {
      && requestCounter == |served| % UsizeModulus
      && (|ipAddresses| == 0 ==> served == [])
      && (|ipAddresses| > 0 ==> served == Rotation(ipAddresses, 0, |served|))
    }

    /** `MultiIPProxy::new`: precomputes the expected header; the counter starts at 0. */
    constructor (ipAddresses: seq<string>, username: string, password: string)
      ensures Valid()
      ensures this.ipAddresses == ipAddresses
      ensures expectedAuthHeader == CreateBasicAuthHeader(username, password)
      ensures requestCounter == 0 && served == []
    {
      this.ipAddresses := ipAddresses;
      this.expectedAuthHeader := CreateBasicAuthHeader(username, password);
      this.requestCounter := 0;
      this.served := [];
    }

    /**
     * `select_next_ip`: reads the counter, increments it (wrapping), and
     * returns the address at the old value modulo the pool size.
     */
    method SelectNextIp() returns (ip: string)
      requires Valid() && |ipAddresses| > 0
      modifies this
      ensures Valid()
      ensures ip == ipAddresses[old(requestCounter) % |ipAddresses|]
      ensures requestCounter == WrappingIncrement(old(requestCounter))
      ensures served == old(served) + [ip]
    {
      var requestNumber := requestCounter;
      requestCounter := WrappingIncrement(requestCounter);
      var ipIndex := requestNumber % |ipAddresses|;
      ip := ipAddresses[ipIndex];
      RotationStep(ipAddresses, |served|);
      served := served + [ip];
    }

    /** `verify_authentication`: only a header equal to the expected one, byte for byte, passes. */
    function VerifyAuthentication(authHeader: Option<string>): (ok: bool)
      ensures ok <==> authHeader == Some(expectedAuthHeader)
    {
      match authHeader
      case Some(header) => header == expectedAuthHeader
      case None => false
    }

    /**
     * `upstream_peer`: takes the next source address (which is only logged)
     * and then returns the peer built from the request URI alone.
     */
    method UpstreamPeer(uri: Uri) returns (peer: HttpPeer)
      requires Valid() && |ipAddresses| > 0
      modifies this
      ensures Valid()
      ensures peer == CreateHttpPeer(ExtractTargetInfo(uri))
      ensures requestCounter == WrappingIncrement(old(requestCounter))
      ensures served == old(served) + [ipAddresses[old(requestCounter) % |ipAddresses|]]
    {
      var sourceIp := SelectNextIp();
      var targetInfo := ExtractTargetInfo(uri);
      peer := CreateHttpPeer(targetInfo);
    }

    /**
     * One request through the engine's phases: `request_filter` answers 407
     * and stops unless the header verifies; only then does `upstream_peer`
     * run, so a rejected request leaves the counter alone.
     */
    method HandleRequest(authHeader: Option<string>, uri: Uri) returns (outcome: Admission)
      requires Valid() && |ipAddresses| > 0
      modifies this
      ensures Valid()
      ensures outcome == Challenged <==> !VerifyAuthentication(authHeader)
      ensures outcome == Challenged ==> requestCounter == old(requestCounter) && served == old(served)
      ensures outcome.Forwarded? ==>
                && outcome.peer == CreateHttpPeer(ExtractTargetInfo(uri))
                && requestCounter == WrappingIncrement(old(requestCounter))
                && served == old(served) + [ipAddresses[old(requestCounter) % |ipAddresses|]]
    {
      if !VerifyAuthentication(authHeader) {
        return Challenged;
      }
      var peer := UpstreamPeer(uri);
      outcome := Forwarded(peer);
    }
  }

  /**
   * A client of the proxy: ten authenticated requests over three addresses,
   * then one without credentials, then one more authenticated request. The
   * rejected request does not disturb the rotation.
   */
  method RotationScenario(uri: Uri)
  {
    var pool := ["1.1.1.1", "2.2.2.2", "3.3.3.3"];
    var proxy := new MultiIPProxy(pool, "user", "pass");
    var credentials := Some(proxy.expectedAuthHeader);
    var k := 0;
    while k < 10
      invariant 0 <= k <= 10
      invariant proxy.Valid() && proxy.ipAddresses == pool
      invariant proxy.expectedAuthHeader == credentials.value
      invariant |proxy.served| == k
    {
      var outcome := proxy.HandleRequest(credentials, uri);
      k := k + 1;
    }
    TenRequestsOverThreeAddresses();
    assert proxy.served == ["1.1.1.1", "2.2.2.2", "3.3.3.3", "1.1.1.1", "2.2.2.2",
                            "3.3.3.3", "1.1.1.1", "2.2.2.2", "3.3.3.3", "1.1.1.1"];
    var rejected := proxy.HandleRequest(None, uri);
    assert rejected == Challenged;
    var twelfth := proxy.HandleRequest(credentials, uri);
    assert twelfth == Forwarded(CreateHttpPeer(ExtractTargetInfo(uri)));
    RotationFromZero(pool, 11, 10);
    assert proxy.served[10] == "2.2.2.2";
  }
}
