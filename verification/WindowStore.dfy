// The in-process window store: a versioned map behind string keys and shards.
module WindowStore {
  import opened Bits

  datatype WindowKey = WindowKey(tenantId: string, entityId: string, windowName: string, epoch: nat)

  datatype WindowValue = WindowValue(aggregate: real, version: nat)

  const ZERO: WindowValue := WindowValue(0.0, 0)

  type Table = map<WindowKey, WindowValue>

  /** What `get` returns: an absent key reads as the zero value. */
  function Read<K>(m: map<K, WindowValue>, key: K): WindowValue {
    if key in m then m[key] else ZERO
  }

  /** Compare-and-swap on an abstract map: only the versions are compared. */
  function Cas<K>(m: map<K, WindowValue>, key: K, expected: WindowValue, value: WindowValue): (map<K, WindowValue>, bool) {
    if Read(m, key).version != expected.version then (m, false) else (m[key := value], true)
  }

  /** A swap answers by the version alone, and touches no key but its own. */
  lemma CasMeaning<K>(m: map<K, WindowValue>, key: K, expected: WindowValue, value: WindowValue, k: K)
    ensures
      var (after, ok) := Cas(m, key, expected, value);
      && (ok <==> Read(m, key).version == expected.version)
      && Read(after, k) == (if ok && k == key then value else Read(m, k))
      && (k in after <==> k in m || (ok && k == key))
  {
  }

  // --------------------------------------------------------------- string keys

  function Digit(d: nat): char
    requires d < 10
  {
    "0123456789"[d]
  }

  function Decimal(n: nat): string {
    if n < 10 then [Digit(n)] else Decimal(n / 10) + [Digit(n % 10)]
  }

  function MakeKey(k: WindowKey): string {
    k.tenantId + ":" + (k.entityId + ":" + (k.windowName + ":" + Decimal(k.epoch)))
  }

  /** The number that a string of decimal digits denotes. */
  function Number(s: string): int {
    if s == "" then 0 else 10 * Number(s[..|s| - 1]) + (s[|s| - 1] as int - '0' as int)
  }

  /** Printing an epoch and reading it back. */
  lemma {:induction false} DecimalRoundTrip(n: nat)
    ensures Number(Decimal(n)) == n
  {
    var s := Decimal(n);
    if n < 10 {
      assert s[..0] == "";
    } else {
      DecimalRoundTrip(n / 10);
      assert s[..|s| - 1] == Decimal(n / 10);
    }
  }

  /** The four parts, in their order. */
  lemma KeyFormat()
    ensures MakeKey(WindowKey("t", "e", "w", 5)) == "t:e:w:5"
  {
  }

  predicate ColonFree(s: string) {
    ':' !in s
  }

  /** Keys the store keeps apart: the window name may contain a colon, the ids may not. */
  predicate Safe(k: WindowKey) {
    ColonFree(k.tenantId) && ColonFree(k.entityId)
  }

  lemma {:induction false} DecimalColonFree(n: nat)
    ensures ColonFree(Decimal(n))
  {
    if n >= 10 {
      DecimalColonFree(n / 10);
    }
  }

  lemma {:induction false} DecimalInjective(m: nat, n: nat)
    requires Decimal(m) == Decimal(n)
    ensures m == n
  {
    var s, t := Decimal(m), Decimal(n);
    assert s[|s| - 1] == Digit(m % 10) && t[|t| - 1] == Digit(n % 10);
    assert m % 10 == n % 10;
    DecimalLength(m);
    DecimalLength(n);
    if m >= 10 {
      assert Decimal(m / 10) == s[..|s| - 1] == t[..|t| - 1] == Decimal(n / 10);
      DecimalInjective(m / 10, n / 10);
    }
  }

  lemma DecimalLength(n: nat)
    ensures |Decimal(n)| >= 1
    ensures n >= 10 <==> |Decimal(n)| >= 2
  {
    if n >= 10 {
      DecimalLength(n / 10);
    }
  }

  /** Splitting at the first colon is unambiguous when the heads have none. */
  lemma SplitAtFirst(a: string, x: string, b: string, y: string)
    requires ColonFree(a) && ColonFree(b) && a + ":" + x == b + ":" + y
    ensures a == b && x == y
  {
    var s := a + ":" + x;
    assert s[|a|] == ':' && s[|b|] == ':';
    assert |a| == |b|;
    assert a == s[..|a|] == b;
    assert x == s[|a| + 1..] == y;
  }

  /** Splitting at the last colon is unambiguous when the tails have none. */
  lemma SplitAtLast(x: string, a: string, y: string, b: string)
    requires ColonFree(a) && ColonFree(b) && x + ":" + a == y + ":" + b
    ensures x == y && a == b
  {
    var s := x + ":" + a;
    assert s[|x|] == ':' && s[|y|] == ':';
    assert |x| == |y|;
    assert x == s[..|x|] == y;
    assert a == s[|x| + 1..] == b;
  }

  /** Safe keys never share a string. */
  lemma MakeKeyInjective(j: WindowKey, k: WindowKey)
    requires Safe(j) && Safe(k) && MakeKey(j) == MakeKey(k)
    ensures j == k
  {
    SplitAtFirst(j.tenantId, j.entityId + ":" + (j.windowName + ":" + Decimal(j.epoch)),
                 k.tenantId, k.entityId + ":" + (k.windowName + ":" + Decimal(k.epoch)));
    SplitAtFirst(j.entityId, j.windowName + ":" + Decimal(j.epoch), k.entityId, k.windowName + ":" + Decimal(k.epoch));
    DecimalColonFree(j.epoch);
    DecimalColonFree(k.epoch);
    SplitAtLast(j.windowName, Decimal(j.epoch), k.windowName, Decimal(k.epoch));
    DecimalInjective(j.epoch, k.epoch);
  }

  function Colons(s: string): nat {
    if s == "" then 0 else Colons(s[1..]) + (if s[0] == ':' then 1 else 0)
  }

  lemma {:induction false} ColonsOfConcat(s: string, t: string)
    ensures Colons(s + t) == Colons(s) + Colons(t)
  {
    if s == "" {
      assert s + t == t;
    } else {
      assert (s + t)[1..] == s[1..] + t;
      ColonsOfConcat(s[1..], t);
    }
  }

  lemma {:induction false} NoColonsIff(s: string)
    ensures Colons(s) == 0 <==> ColonFree(s)
  {
    if s != "" {
      NoColonsIff(s[1..]);
      assert s == [s[0]] + s[1..];
    }
  }

  lemma ColonsOfKey(k: WindowKey)
    ensures Colons(MakeKey(k)) == 3 + Colons(k.tenantId) + Colons(k.entityId) + Colons(k.windowName)
  {
    var d := Decimal(k.epoch);
    DecimalColonFree(k.epoch);
    NoColonsIff(d);
    assert Colons(":") == 1;
    ColonsOfConcat(k.windowName + ":", d);
    ColonsOfConcat(k.windowName, ":");
    var w := k.windowName + ":" + d;
    ColonsOfConcat(k.entityId + ":", w);
    ColonsOfConcat(k.entityId, ":");
    var e := k.entityId + ":" + w;
    ColonsOfConcat(k.tenantId + ":", e);
    ColonsOfConcat(k.tenantId, ":");
  }

  /** A key shares its string with no other key at all exactly when it has no colon in any part. */
  lemma KeyIsUniqueIff(k: WindowKey)
    ensures (forall j :: MakeKey(j) == MakeKey(k) ==> j == k)
       <==> Safe(k) && ColonFree(k.windowName)
  {
    NoColonsIff(k.tenantId);
    NoColonsIff(k.entityId);
    NoColonsIff(k.windowName);
    if Safe(k) && ColonFree(k.windowName) {
      forall j | MakeKey(j) == MakeKey(k) ensures j == k {
        ColonsOfKey(j);
        ColonsOfKey(k);
        NoColonsIff(j.tenantId);
        NoColonsIff(j.entityId);
        MakeKeyInjective(j, k);
      }
    } else {
      var j := Collider(k);
      assert j != k && MakeKey(j) == MakeKey(k);
    }
  }

  lemma SplitAt(s: string) returns (a: string, b: string)
    requires !ColonFree(s)
    ensures s == a + ":" + b
  {
    var i :| 0 <= i < |s| && s[i] == ':';
    a, b := s[..i], s[i + 1..];
  }

  /** The colliding key: the parts regrouped around another colon. */
  lemma Collider(k: WindowKey) returns (j: WindowKey)
    requires !(Safe(k) && ColonFree(k.windowName))
    ensures j != k && MakeKey(j) == MakeKey(k)
  {
    var d := Decimal(k.epoch);
    if !ColonFree(k.tenantId) {
      var a, b := SplitAt(k.tenantId);
      j := WindowKey(a, b, k.entityId + ":" + k.windowName, k.epoch);
      assert |a| < |k.tenantId|;
      assert MakeKey(k) == a + ":" + (b + ":" + (k.entityId + ":" + k.windowName + ":" + d));
    } else if !ColonFree(k.entityId) {
      var a, b := SplitAt(k.entityId);
      j := WindowKey(k.tenantId + ":" + a, b, k.windowName, k.epoch);
      assert |j.tenantId| > |k.tenantId|;
      assert MakeKey(k) == (k.tenantId + ":" + a) + ":" + (b + ":" + (k.windowName + ":" + d));
    } else {
      var a, b := SplitAt(k.windowName);
      j := WindowKey(k.tenantId + ":" + k.entityId, a, b, k.epoch);
      assert |j.tenantId| > |k.tenantId|;
      assert MakeKey(k) == (k.tenantId + ":" + k.entityId) + ":" + (a + ":" + (b + ":" + d));
    }
  }

  // -------------------------------------------------------------------- shards

  type Shards = seq<map<string, WindowValue>>

  function ShardOf(hash: string -> nat, n: nat, k: WindowKey): nat
    requires n > 0
  {
    Xor(hash(k.tenantId), hash(k.entityId)) % n
  }

  /** The shard depends on both ids' hashes, in whatever order, and on nothing else, and every
      shard is in use. */
  lemma ShardMeaning(hash: string -> nat, n: nat, j: WindowKey, k: WindowKey)
    requires n > 0
    ensures ShardOf(hash, n, k) < n
    ensures j.tenantId == k.tenantId && j.entityId == k.entityId ==> ShardOf(hash, n, j) == ShardOf(hash, n, k)
    ensures hash(k.entityId) == 0 ==> ShardOf(hash, n, k) == hash(k.tenantId) % n
    ensures hash(k.tenantId) == 0 ==> ShardOf(hash, n, k) == hash(k.entityId) % n
    ensures hash(k.tenantId) == hash(k.entityId) ==> ShardOf(hash, n, k) == 0
  {
    XorZero(hash(k.tenantId));
    ZeroXor(hash(k.entityId));
    XorSelf(hash(k.tenantId));
  }

  function Lookup(hash: string -> nat, shards: Shards, k: WindowKey): WindowValue
    requires |shards| > 0
  {
    Read(shards[ShardOf(hash, |shards|, k)], MakeKey(k))
  }

  function ShardedCas(hash: string -> nat, shards: Shards, k: WindowKey, expected: WindowValue, value: WindowValue): (Shards, bool)
    requires |shards| > 0
  {
    var i := ShardOf(hash, |shards|, k);
    var (data, ok) := Cas(shards[i], MakeKey(k), expected, value);
    (shards[i := data], ok)
  }

  function ShardedExpire(hash: string -> nat, shards: Shards, k: WindowKey): Shards
    requires |shards| > 0
  {
    var i := ShardOf(hash, |shards|, k);
    shards[i := shards[i] - {MakeKey(k)}]
  }

  /** What a sharded compare-and-swap does at its own key. */
  lemma ShardedCasHere(hash: string -> nat, shards: Shards, k: WindowKey, expected: WindowValue, value: WindowValue)
    requires |shards| > 0
    ensures
      var (shards', ok) := ShardedCas(hash, shards, k, expected, value);
      && |shards'| == |shards|
      && ok == (Lookup(hash, shards, k).version == expected.version)
      && Lookup(hash, shards', k) == if ok then value else Lookup(hash, shards, k)
  {
  }

  /** The shards hold the abstract map, as far as safe keys can tell. */
  ghost predicate Represents(hash: string -> nat, shards: Shards, m: map<WindowKey, WindowValue>)
    requires |shards| > 0
  {
    forall k {:trigger Lookup(hash, shards, k)} :: Safe(k) ==> Lookup(hash, shards, k) == Read(m, k)
  }

  /** On safe keys the sharded string store is the abstract map: same answers, same effect,
      and no other key disturbed. */
  lemma ShardedStoreRefinesMap(hash: string -> nat, shards: Shards, m: map<WindowKey, WindowValue>,
                               k: WindowKey, expected: WindowValue, value: WindowValue)
    requires |shards| > 0 && Represents(hash, shards, m) && Safe(k)
    ensures
      var (shards', ok) := ShardedCas(hash, shards, k, expected, value);
      var (m', ok') := Cas(m, k, expected, value);
      ok == ok' && |shards'| == |shards| && Represents(hash, shards', m')
    ensures
      var shards' := ShardedExpire(hash, shards, k);
      |shards'| == |shards| && Represents(hash, shards', m - {k})
  {
    var (cassed, ok) := ShardedCas(hash, shards, k, expected, value);
    var expired := ShardedExpire(hash, shards, k);
    assert Lookup(hash, shards, k) == Read(m, k);
    forall j | Safe(j)
      ensures Lookup(hash, cassed, j) == Read(Cas(m, k, expected, value).0, j)
      ensures Lookup(hash, expired, j) == Read(m - {k}, j)
    {
      assert Lookup(hash, shards, j) == Read(m, j);
      if MakeKey(j) == MakeKey(k) {
        MakeKeyInjective(j, k);
      }
    }
  }

  /** Without that condition it is not: two keys of one tenant hash that regroup the same text. */
  lemma UnsafeKeysShareASlot(hash: string -> nat)
    requires Xor(hash("a:b"), hash("c")) == Xor(hash("a"), hash("b:c"))
    ensures
      var j, k := WindowKey("a:b", "c", "w", 7), WindowKey("a", "b:c", "w", 7);
      j != k && forall shards: Shards :: |shards| > 0 ==> Lookup(hash, shards, j) == Lookup(hash, shards, k)
  {
    var j, k := WindowKey("a:b", "c", "w", 7), WindowKey("a", "b:c", "w", 7);
    var d := Decimal(7);
    assert MakeKey(j) == "a:b:c:w:" + d == MakeKey(k);
  }

  class InProcessWindowStore {
    const hash: string -> nat
    var shards: Shards

    ghost predicate Valid()
      reads this
    {
      |shards| > 0
    }

    constructor (numShards: nat, hash: string -> nat)
      requires numShards > 0
      ensures Valid() && |shards| == numShards && this.hash == hash
      ensures Represents(hash, shards, map[])
    {
      this.hash := hash;
      shards := seq(numShards, _ => map[]);
    }

    method Get(key: WindowKey) returns (value: WindowValue)
      requires Valid()
      ensures value == Lookup(hash, shards, key)
    {
      var data := shards[ShardOf(hash, |shards|, key)];
      var text := MakeKey(key);
      if text in data {
        return data[text];
      }
      return ZERO;
    }

    method CompareAndSwap(key: WindowKey, expected: WindowValue, value: WindowValue) returns (ok: bool)
      requires Valid()
      modifies this`shards
      ensures Valid() && (shards, ok) == ShardedCas(hash, old(shards), key, expected, value)
    {
      var i := ShardOf(hash, |shards|, key);
      var text := MakeKey(key);
      var current := if text in shards[i] then shards[i][text] else ZERO;
      if current.version != expected.version {
        assert shards[i := shards[i]] == shards;
        return false;
      }
      shards := shards[i := shards[i][text := value]];
      return true;
    }

    method Expire(key: WindowKey)
      requires Valid()
      modifies this`shards
      ensures Valid() && shards == ShardedExpire(hash, old(shards), key)
    {
      var i := ShardOf(hash, |shards|, key);
      var text := MakeKey(key);
      if text in shards[i] {
        shards := shards[i := shards[i] - {text}];
      } else {
        assert shards[i] - {text} == shards[i];
        assert shards[i := shards[i]] == shards;
      }
    }
  }
}
