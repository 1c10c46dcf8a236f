/** The signed-request gate run by `filterParameters` and `defendRepeat`:
    required fields, signature over the canonical payload, freshness of the
    timestamp and the replay cache, failing fast with codes 503, 504, 505
    and 555. The collaborators it cannot see (MD5, `json_encode`, the
    natural key order, PHP's string-to-number comparison) are fields of
    `Primitives`; the clock is the parameter `now`. */
module RequestGate {
  import opened Wrappers
  import opened PhpStrings
  import opened Canonicalizer

  datatype Primitives = Primitives(
    keyLess: (string, string) -> bool,   // SORT_NATURAL order on keys
    md5: string -> string,               // md5 as hex digits
    jsonEncode: seq<Param> -> string,    // json_encode of the ordered array
    toNumber: string -> int)             // the timestamp as `<` compares it with an int

  /** The controller's default `signExpire`, in seconds. */
  const DefaultSignExpire := 500

  /** The decision of the gate. */
  datatype GateOutcome = Accepted | Rejected(code: int, msg: string)

  const MissingParams := "缺少必要参数"
  const Tampered := "参数错误"
  const Expired := "请求已过期"
  const Duplicate := "请勿重复提交"

  /** `$this->request->request(key)`: the value of the first entry with
      that key, or `null`. */
  function Lookup(params: seq<Param>, key: string): (v: Option<string>)
    ensures v.None? <==> forall i :: 0 <= i < |params| ==> params[i].0 != key
    ensures v.Some? ==> (key, v.value) in params
  {
    if params == [] then None
    else if params[0].0 == key then Some(params[0].1)
    else
      var v := Lookup(params[1..], key);
      assert v.Some? ==> (key, v.value) in params by {
        if v.Some? { assert (key, v.value) in params[1..]; }
      }
      assert v.None? ==> forall i :: 0 <= i < |params| ==> params[i].0 != key by {
        if v.None? {
          forall i | 0 < i < |params| ensures params[i].0 != key { assert params[i] == params[1..][i - 1]; }
        }
      }
      v
  }

  lemma {:induction false} LookupAppend(params: seq<Param>, extra: Param, key: string)
    ensures Lookup(params + [extra], key) ==
              if Lookup(params, key).Some? then Lookup(params, key)
              else if extra.0 == key then Some(extra.1)
              else None
  {
    if params == [] {
      assert params + [extra] == [extra];
    } else {
      assert (params + [extra])[1..] == params[1..] + [extra];
      LookupAppend(params[1..], extra, key);
    }
  }

  /** The fields every guarded request must carry, each truthy. */
  predicate HasRequiredFields(params: seq<Param>) {
    && TruthyField(Lookup(params, "timestamp"))
    && TruthyField(Lookup(params, "token"))
    && TruthyField(Lookup(params, "nonce"))
    && TruthyField(Lookup(params, "signature"))
  }

  /** `strtoupper(md5(json_encode(payload)))`. */
  function Sign(prims: Primitives, payload: seq<Param>): (sig: string)
    ensures forall k :: 0 <= k < |sig| ==> !IsLowerAscii(sig[k])
  {
    Upper(prims.md5(prims.jsonEncode(payload)))
  }

  /** The signature the server expects for these parameters. */
  function ExpectedSign(signatureStr: string, prims: Primitives, params: seq<Param>): string {
    Sign(prims, Canonical(params, signatureStr, prims.keyLess))
  }

  /** The supplied signature is exactly (`!==`) the expected one. */
  predicate SignatureMatches(signatureStr: string, prims: Primitives, params: seq<Param>) {
    HasRequiredFields(params) && ExpectedSign(signatureStr, prims, params) == Lookup(params, "signature").value
  }

  /** The timestamp is not older than `now - signExpire`; a timestamp in
      the future always passes. */
  predicate Fresh(signExpire: int, prims: Primitives, params: seq<Param>, now: int)
    requires HasRequiredFields(params)
  {
    !(prims.toNumber(Lookup(params, "timestamp").value) < now - signExpire)
  }

  /** A cache entry is live until (and including) its expiry instant. */
  predicate Live(entries: map<string, int>, key: string, now: int) {
    key in entries && now <= entries[key]
  }

  /** `defendRepeat`: a live entry for the signature means a duplicate;
      otherwise the signature is stored for `ttl` seconds. */
  function RepeatCheck(entries: map<string, int>, sign: string, now: int, ttl: int): (r: (GateOutcome, map<string, int>))
    ensures Live(entries, sign, now) ==> r == (Rejected(555, Duplicate), entries)
    ensures !Live(entries, sign, now) ==> r.0 == Accepted
    ensures !Live(entries, sign, now) ==> r.1.Keys == entries.Keys + {sign}
    ensures !Live(entries, sign, now) ==> forall t :: Live(r.1, sign, t) <==> t <= now + ttl
    ensures forall k :: k in entries && k != sign ==> k in r.1 && r.1[k] == entries[k]
  {
    if Live(entries, sign, now) then (Rejected(555, Duplicate), entries)
    else (Accepted, entries[sign := now + ttl])
  }

  /** `filterParameters`: the gate, failing at the first check that fails.
      The cache changes only when the request is accepted. */
  function Evaluate(signatureStr: string, signExpire: int, prims: Primitives, params: seq<Param>,
                    now: int, entries: map<string, int>): (r: (GateOutcome, map<string, int>))
    ensures r.0 == Rejected(503, MissingParams) <==> !HasRequiredFields(params)
    ensures r.0 == Rejected(504, Tampered) <==>
              HasRequiredFields(params) && !SignatureMatches(signatureStr, prims, params)
    ensures r.0 == Rejected(505, Expired) <==>
              SignatureMatches(signatureStr, prims, params) && !Fresh(signExpire, prims, params, now)
    ensures r.0 == Rejected(555, Duplicate) <==>
              && SignatureMatches(signatureStr, prims, params) && Fresh(signExpire, prims, params, now)
              && Live(entries, ExpectedSign(signatureStr, prims, params), now)
    ensures r.0 == Accepted <==>
              && SignatureMatches(signatureStr, prims, params) && Fresh(signExpire, prims, params, now)
              && !Live(entries, ExpectedSign(signatureStr, prims, params), now)
    ensures r.0 == Accepted || r.0 in {Rejected(503, MissingParams), Rejected(504, Tampered),
                                       Rejected(505, Expired), Rejected(555, Duplicate)}
    ensures r.1 == if r.0 == Accepted then entries[ExpectedSign(signatureStr, prims, params) := now + signExpire]
                   else entries
  {
    if !HasRequiredFields(params) then (Rejected(503, MissingParams), entries)
    else
      var sign := ExpectedSign(signatureStr, prims, params);
      if sign != Lookup(params, "signature").value then (Rejected(504, Tampered), entries)
      else if prims.toNumber(Lookup(params, "timestamp").value) < now - signExpire then (Rejected(505, Expired), entries)
      else RepeatCheck(entries, sign, now, signExpire)
  }

  /** A missing field is decided before any hashing, ordering or number
      conversion: the outcome does not depend on those primitives at all. */
  lemma MissingFieldDecidedBeforeHashing(signatureStr: string, signExpire: int, prims: Primitives,
                                         other: Primitives, params: seq<Param>, now: int,
                                         entries: map<string, int>)
    requires !HasRequiredFields(params)
    ensures Evaluate(signatureStr, signExpire, prims, params, now, entries)
         == Evaluate(signatureStr, signExpire, other, params, now, entries)
         == (Rejected(503, MissingParams), entries)
  {
  }

  /** The expected signature is upper case, and the comparison is exact, so
      a supplied signature with a lower-case letter is always rejected. */
  lemma LowerCaseSignatureRejected(signatureStr: string, signExpire: int, prims: Primitives,
                                   params: seq<Param>, now: int, entries: map<string, int>, k: nat)
    requires HasRequiredFields(params)
    requires k < |Lookup(params, "signature").value| && IsLowerAscii(Lookup(params, "signature").value[k])
    ensures Evaluate(signatureStr, signExpire, prims, params, now, entries) == (Rejected(504, Tampered), entries)
  {
    var supplied := Lookup(params, "signature").value;
    var expected := ExpectedSign(signatureStr, prims, params);
    assert |expected| == |supplied| ==> expected[k] != supplied[k];
  }

  /** Round trip: a client that signs its parameters as the server does
      and appends the signature passes the integrity check. */
  lemma ClientSignatureVerifies(signatureStr: string, signExpire: int, prims: Primitives,
                                body: seq<Param>, now: int, entries: map<string, int>)
    requires ExcludedKey(signatureStr) == "signature"
    requires Lookup(body, "signature") == None
    requires TruthyField(Lookup(body, "timestamp")) && TruthyField(Lookup(body, "token"))
    requires TruthyField(Lookup(body, "nonce"))
    requires Truthy(ExpectedSign(signatureStr, prims, body))
    ensures var request := body + [("signature", ExpectedSign(signatureStr, prims, body))];
            && SignatureMatches(signatureStr, prims, request)
            && Evaluate(signatureStr, signExpire, prims, request, now, entries).0
                 in {Accepted, Rejected(505, Expired), Rejected(555, Duplicate)}
  {
    var sig := ("signature", ExpectedSign(signatureStr, prims, body));
    var request := body + [sig];
    LookupAppend(body, sig, "timestamp");
    LookupAppend(body, sig, "token");
    LookupAppend(body, sig, "nonce");
    LookupAppend(body, sig, "signature");
    FilteredAppend(body, [sig], signatureStr);
    assert Filtered([sig], signatureStr) == [];
    assert Filtered(request, signatureStr) == Filtered(body, signatureStr);
    assert Canonical(request, signatureStr, prims.keyLess) == Canonical(body, signatureStr, prims.keyLess);
  }

  /** The freshness check is one-sided: with a non-negative window a
      timestamp at or after `now` never expires. */
  lemma FutureTimestampNeverExpires(signatureStr: string, signExpire: int, prims: Primitives,
                                    params: seq<Param>, now: int, entries: map<string, int>)
    requires signExpire >= 0
    requires HasRequiredFields(params)
    requires prims.toNumber(Lookup(params, "timestamp").value) >= now
    ensures Evaluate(signatureStr, signExpire, prims, params, now, entries).0 != Rejected(505, Expired)
  {
  }

  /** The window boundary with the default 500 seconds: `now - 500` passes,
      `now - 501` expires. */
  lemma ExpiryBoundary(signatureStr: string, prims: Primitives, params: seq<Param>, now: int,
                       entries: map<string, int>)
    requires SignatureMatches(signatureStr, prims, params)
    ensures prims.toNumber(Lookup(params, "timestamp").value) == now - 500 ==>
              Evaluate(signatureStr, DefaultSignExpire, prims, params, now, entries).0 != Rejected(505, Expired)
    ensures prims.toNumber(Lookup(params, "timestamp").value) == now - 501 ==>
              Evaluate(signatureStr, DefaultSignExpire, prims, params, now, entries).0 == Rejected(505, Expired)
  {
  }

  /** Replay: once a request is accepted, submitting it again within the
      window is rejected, as a duplicate unless its timestamp has expired
      by then. */
  lemma SecondSubmissionRejected(signatureStr: string, signExpire: int, prims: Primitives,
                                 params: seq<Param>, t1: int, t2: int, entries: map<string, int>)
    requires Evaluate(signatureStr, signExpire, prims, params, t1, entries).0 == Accepted
    requires t1 <= t2 <= t1 + signExpire
    ensures var after := Evaluate(signatureStr, signExpire, prims, params, t1, entries).1;
            Evaluate(signatureStr, signExpire, prims, params, t2, after).0
              == if Fresh(signExpire, prims, params, t2) then Rejected(555, Duplicate) else Rejected(505, Expired)
  {
    var sign := ExpectedSign(signatureStr, prims, params);
    var after := Evaluate(signatureStr, signExpire, prims, params, t1, entries).1;
    assert after[sign] == t1 + signExpire;
    assert Live(after, sign, t2);
  }

  /** After the window the cache entry has expired, so the same request is
      accepted again exactly when its timestamp is still fresh: a timestamp
      far enough in the future lets it be replayed. */
  lemma ReplayAfterWindow(signatureStr: string, signExpire: int, prims: Primitives,
                          params: seq<Param>, t1: int, t2: int, entries: map<string, int>)
    requires Evaluate(signatureStr, signExpire, prims, params, t1, entries).0 == Accepted
    requires t2 > t1 + signExpire
    ensures var after := Evaluate(signatureStr, signExpire, prims, params, t1, entries).1;
            var again := Evaluate(signatureStr, signExpire, prims, params, t2, after).0;
            again == Accepted <==> Fresh(signExpire, prims, params, t2)
  {
    var sign := ExpectedSign(signatureStr, prims, params);
    var after := Evaluate(signatureStr, signExpire, prims, params, t1, entries).1;
    assert after[sign] == t1 + signExpire;
    assert !Live(after, sign, t2);
  }

  /** `\think\Cache` as the guard uses it: a map from key to the last
      instant at which the entry is live. Expired entries are ignored
      rather than removed. */
  class ReplayCache {
    var entries: map<string, int>

    constructor ()
      ensures entries == map[]
    {
      entries := map[];
    }

    /** `Cache::get(key)` is truthy exactly when a live entry exists. */
    method Get(key: string, now: int) returns (seen: bool)
      ensures seen == Live(entries, key, now)
    {
      seen := key in entries && now <= entries[key];
    }

    /** `Cache::set(key, 1, ttl)`. */
    method Set(key: string, now: int, ttl: int)
      modifies this
      ensures entries == old(entries)[key := now + ttl]
    {
      entries := entries[key := now + ttl];
    }
  }
}
