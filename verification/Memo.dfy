/** The memo of `anti_unify`: a hash table keyed by pairs of subexpressions.

    Of a key the table knows the hash. Which entries it compares with the key, and in what order, is
    an arbitrary function of the hashes; it leaves out no entry whose hash is the key's. */
module Memos {
  import opened Terms
  import opened Encoding
  import opened Wrappers
  import opened Trees
  import opened Envs
  import opened Numbering
  import opened RelEnvs

  datatype AuError = TooManyVars | MaxDepth(depth: nat) | Strayed
  datatype MemoEntry = MemoEntry(left: ExprEnv, right: ExprEnv, v: nat, hash: seq<Write>)

  type Probe = (seq<seq<Write>>, seq<Write>) -> seq<nat>

  ghost predicate Complete(p: Probe) {
    forall hs, h ::
      && (forall i | i in p(hs, h) :: i < |hs|)
      && (forall i | 0 <= i < |hs| && hs[i] == h :: i in p(hs, h))
  }

  // Looking a key up and inserting it probe alike, but inserting may rehash the table first.
  datatype Table = Table(get: Probe, insert: Probe) {
    ghost predicate Valid() {
      Complete(get) && Complete(insert)
    }
  }

  // Left inputs live in one variable space and right inputs in another.
  ghost predicate Sides(q: EnvPair) {
    ValidPair(q) && q.0.n == 0 && q.1.n == 1
  }

  ghost function KeyHash(q: EnvPair): seq<Write>
    requires ValidPair(q)
  {
    HashWrites(One(Abs1(ExprOf(q.0), 0, q.0.v))) + HashWrites(One(Abs1(ExprOf(q.1), 0, q.1.v)))
  }

  function Key(e: MemoEntry): EnvPair {
    (e.left, e.right)
  }

  ghost predicate EntriesValid(memo: seq<MemoEntry>) {
    forall i | 0 <= i < |memo| :: memo[i].v == i && Sides(Key(memo[i])) && memo[i].hash == KeyHash(Key(memo[i]))
  }

  // The disagreements met so far, in order of their variables.
  ghost function Met(memo: seq<MemoEntry>): (s: seq<Pair>)
    requires EntriesValid(memo)
    ensures |s| == |memo|
  {
    seq(|memo|, i requires 0 <= i < |memo| => DenPair(Key(memo[i])))
  }

  function Hashes(memo: seq<MemoEntry>): seq<seq<Write>> {
    seq(|memo|, i requires 0 <= i < |memo| => memo[i].hash)
  }

  function Entry(q: EnvPair, v: nat, hash: seq<Write>): MemoEntry {
    MemoEntry(q.0, q.1, v, hash)
  }

  ghost function More(memo: seq<MemoEntry>, q: EnvPair): seq<MemoEntry>
    requires ValidPair(q)
  {
    memo + [Entry(q, |memo|, KeyHash(q))]
  }

  lemma MetMore(memo: seq<MemoEntry>, q: EnvPair)
    requires EntriesValid(memo) && Sides(q)
    ensures EntriesValid(More(memo, q)) && Met(More(memo, q)) == Met(memo) + [DenPair(q)]
  {
    hide KeyHash;
  }

  lemma KeyEqual(x: ExprEnv, y: ExprEnv)
    requires ValidEnv(x) && ValidEnv(y) && x.n == y.n
    ensures Den(x) == Den(y) <==> Abs1(ExprOf(x), 0, x.v) == Abs1(ExprOf(y), 0, y.v)
  {
    SpaceIrrelevant(One(ExprOf(x)), x.v, One(ExprOf(y)), y.v, x.n);
    AbsCons(ExprOf(x), Nil, 0, x.v);
    AbsCons(ExprOf(y), Nil, 0, y.v);
    AbsCons(ExprOf(x), Nil, x.n, x.v);
    AbsCons(ExprOf(y), Nil, x.n, y.v);
  }

  // Keys write the same to the hasher exactly when they are equal.
  lemma KeyHashDecides(p: EnvPair, q: EnvPair)
    requires Sides(p) && Sides(q)
    ensures KeyHash(p) == KeyHash(q) <==> DenPair(p) == DenPair(q)
  {
    hide Den, ValidEnv, ExprOf, Abs, HashWrites;
    KeyEqual(p.0, q.0);
    KeyEqual(p.1, q.1);
    if KeyHash(p) == KeyHash(q) {
      var a, b := Abs1(ExprOf(p.0), 0, p.0.v), Abs1(ExprOf(q.0), 0, q.0.v);
      var c, d := Abs1(ExprOf(p.1), 0, p.1.v), Abs1(ExprOf(q.1), 0, q.1.v);
      KeyInSpace0(p.0);
      KeyInSpace0(p.1);
      KeyInSpace0(q.0);
      KeyInSpace0(q.1);
      HashInjective(One(a), One(b), HashWrites(One(c)), HashWrites(One(d)));
      assert HashWrites(One(c)) + [] == HashWrites(One(d)) + [];
      HashInjective(One(c), One(d), [], []);
    }
  }

  lemma KeyInSpace0(x: ExprEnv)
    requires ValidEnv(x)
    ensures InSpace0(One(Abs1(ExprOf(x), 0, x.v)))
  {
    AbsInSpace0(One(ExprOf(x)), x.v);
    AbsCons(ExprOf(x), Nil, 0, x.v);
  }

  /* ---- Searching ---- */

  // Keys are compared side by side, the right side only when the left sides are equal.
  ghost predicate PairStrays(q: EnvPair, p: EnvPair)
    requires ValidPair(q) && ValidPair(p)
  {
    Strays(q.0, p.0) || (Den(q.0) == Den(p.0) && Strays(q.1, p.1))
  }

  // Comparing `q` with the entries in `order` strays before an equal key is found.
  ghost predicate SearchStrays(memo: seq<MemoEntry>, order: seq<nat>, q: EnvPair)
    requires EntriesValid(memo) && ValidPair(q)
  {
    exists k | 0 <= k < |order| ::
      && order[k] < |memo| && PairStrays(q, Key(memo[order[k]]))
      && forall j | 0 <= j < k :: order[j] < |memo| ==> Met(memo)[order[j]] != DenPair(q)
  }

  datatype Found = Hit(v: nat) | Miss | Stray

  method Search(memo: seq<MemoEntry>, order: seq<nat>, lhs: ExprEnv, rhs: ExprEnv) returns (r: Found)
    requires EntriesValid(memo) && Sides((lhs, rhs)) && forall i | i in order :: i < |memo|
    ensures r.Stray? <==> SearchStrays(memo, order, (lhs, rhs))
    ensures r.Hit? ==> r.v < |memo| && Met(memo)[r.v] == DenPair((lhs, rhs))
    ensures r.Miss? ==> forall i | i in order :: Met(memo)[i] != DenPair((lhs, rhs))
  {
    hide Den, Abs, ValidEnv, ExprOf, Strays, KeyHash;
    ghost var q: EnvPair := (lhs, rhs);
    for k := 0 to |order|
      invariant forall j | 0 <= j < k ::
        order[j] < |memo| && Met(memo)[order[j]] != DenPair(q) && !PairStrays(q, Key(memo[order[j]]))
    {
      assert order[k] in order;
      var e := memo[order[k]];
      KeyEqual(lhs, e.left);
      KeyEqual(rhs, e.right);
      assert Met(memo)[order[k]] == DenPair(Key(e));
      var eq := RelEq(lhs, e.left);
      if eq == Some(true) {
        EqualNeverStrays(lhs, e.left);
        eq := RelEq(rhs, e.right);
        if eq == Some(true) {
          EqualNeverStrays(rhs, e.right);
          return Hit(e.v);
        }
      }
      if eq == None {
        return Stray;
      }
    }
    r := Miss;
  }

  // `memo.get`, and the search for an equal key that `memo.insert` makes before it inserts.
  method Lookup(probe: Probe, memo: seq<MemoEntry>, lhs: ExprEnv, rhs: ExprEnv) returns (r: Found, hash: seq<Write>)
    requires Complete(probe) && EntriesValid(memo) && Distinct(Met(memo)) && Sides((lhs, rhs))
    ensures hash == KeyHash((lhs, rhs))
    ensures r.Stray? <==> SearchStrays(memo, probe(Hashes(memo), hash), (lhs, rhs))
    ensures r.Hit? ==> DenPair((lhs, rhs)) in Met(memo) && r.v == IndexOf(Met(memo), DenPair((lhs, rhs)))
    ensures r.Miss? ==> DenPair((lhs, rhs)) !in Met(memo)
  {
    hide Den, ValidEnv, SearchStrays, HashWrites;
    ghost var q: EnvPair := (lhs, rhs);
    var hl := HashOf(lhs);
    var hr := HashOf(rhs);
    hash := hl + hr;
    var order := probe(Hashes(memo), hash);
    r := Search(memo, order, lhs, rhs);
    if r.Hit? {
      FirstIndex(Met(memo), DenPair(q), r.v);
    }
    if r.Miss? {
      NotThere(probe, memo, q);
    }
  }

  // An equal key has an equal hash, so it is among the entries compared.
  lemma NotThere(probe: Probe, memo: seq<MemoEntry>, q: EnvPair)
    requires Complete(probe) && EntriesValid(memo) && Sides(q)
    requires forall i | i in probe(Hashes(memo), KeyHash(q)) && i < |memo| :: Met(memo)[i] != DenPair(q)
    ensures DenPair(q) !in Met(memo)
  {
    hide KeyHash, Den, ValidEnv;
    forall i | 0 <= i < |memo|
      ensures Met(memo)[i] != DenPair(q)
    {
      KeyHashDecides(Key(memo[i]), q);
      assert Hashes(memo)[i] == KeyHash(Key(memo[i]));
    }
  }

  /* ---- The memo after a list of keys ---- */

  ghost function SettleOne(t: Table, memo: seq<MemoEntry>, q: EnvPair): Result<seq<MemoEntry>, AuError>
    requires EntriesValid(memo) && ValidPair(q)
  {
    var hs, h := Hashes(memo), KeyHash(q);
    if SearchStrays(memo, t.get(hs, h), q) then Err(Strayed)
    else if DenPair(q) in Met(memo) then Ok(memo)
    else if |memo| >= 64 then Err(TooManyVars)
    else if SearchStrays(memo, t.insert(hs, h), q) then Err(Strayed)
    else Ok(More(memo, q))
  }

  // Looking up and inserting `keys` one after the other.
  ghost function Settle(t: Table, memo: seq<MemoEntry>, keys: seq<EnvPair>): Result<seq<MemoEntry>, AuError>
    requires EntriesValid(memo) && forall q | q in keys :: Sides(q)
    decreases |keys|
  {
    if keys == [] then Ok(memo) else
      assert Sides(keys[0]) && forall q | q in keys[1..] :: q in keys;
      match SettleOne(t, memo, keys[0])
      case Err(f) => Err(f)
      case Ok(memo') => (MetMore(memo, keys[0]); Settle(t, memo', keys[1..]))
  }

  // The memo that remembers every key, however many there are.
  ghost function Remember(memo: seq<MemoEntry>, keys: seq<EnvPair>): (r: seq<MemoEntry>)
    requires EntriesValid(memo) && forall q | q in keys :: Sides(q)
    ensures EntriesValid(r)
    decreases |keys|
  {
    if keys == [] then memo else
      assert keys[0] in keys && forall q | q in keys[1..] :: q in keys;
      MetMore(memo, keys[0]);
      Remember(if DenPair(keys[0]) in Met(memo) then memo else More(memo, keys[0]), keys[1..])
  }

  lemma RememberGrows(memo: seq<MemoEntry>, keys: seq<EnvPair>)
    requires EntriesValid(memo) && forall q | q in keys :: Sides(q)
    ensures memo <= Remember(memo, keys)
    ensures forall q | q in keys :: DenPair(q) in Met(Remember(memo, keys))
    decreases |keys|
  {
    hide KeyHash, Den, ValidEnv;
    if keys != [] {
      assert keys[0] in keys && forall q | q in keys[1..] :: q in keys;
      var q := keys[0];
      MetMore(memo, q);
      var memo' := if DenPair(q) in Met(memo) then memo else More(memo, q);
      RememberGrows(memo', keys[1..]);
      var r := Remember(memo, keys);
      assert DenPair(q) in Met(memo') && Met(memo') <= Met(r);
    }
  }

  // Key `j` strays off entry `k` of the memo that it is looked up in.
  ghost predicate StraysAt(memo: seq<MemoEntry>, keys: seq<EnvPair>, j: nat, k: nat)
    requires EntriesValid(memo) && j < |keys| && forall q | q in keys :: Sides(q)
  {
    assert Sides(keys[j]) && forall q | q in keys[..j] :: q in keys;
    var memo' := Remember(memo, keys[..j]);
    k < |memo'| <= 64 && PairStrays(keys[j], Key(memo'[k]))
  }

  lemma StraysLater(memo: seq<MemoEntry>, keys: seq<EnvPair>, j: nat, k: nat)
    requires EntriesValid(memo) && j + 1 < |keys| && forall q | q in keys :: Sides(q)
    ensures Sides(keys[0]) && forall q | q in keys[1..] :: Sides(q)
    ensures var memo' := Remember(memo, keys[..1]);
            StraysAt(memo, keys, j + 1, k) <==> StraysAt(memo', keys[1..], j, k)
  {
    hide KeyHash, Den, ValidEnv;
    assert Sides(keys[0]) && forall q | q in keys[1..] :: q in keys;
    assert keys[..j + 1][1..] == keys[1..][..j] && keys[..j + 1][0] == keys[0];
    assert keys[..1][1..] == [] && keys[..1][0] == keys[0];
  }

  // The outcome of looking up and inserting the keys, whatever the hash table does.
  lemma {:induction false} SettleIs(t: Table, memo: seq<MemoEntry>, keys: seq<EnvPair>)
    requires EntriesValid(memo) && |memo| <= 64 && forall q | q in keys :: Sides(q)
    ensures match Settle(t, memo, keys)
            case Ok(r) => r == Remember(memo, keys) && |r| <= 64
            case Err(TooManyVars) => |Remember(memo, keys)| > 64
            case Err(Strayed) => exists j: nat, k: nat :: j < |keys| && StraysAt(memo, keys, j, k)
            case Err(MaxDepth(_)) => false
    decreases |keys|
  {
    hide KeyHash, Den, ValidEnv, Strays, PairStrays;
    if keys != [] {
      assert Sides(keys[0]) && forall q | q in keys[1..] :: q in keys;
      MetMore(memo, keys[0]);
      assert keys[..0] == [];
      match SettleOne(t, memo, keys[0]) {
        case Err(Strayed) =>
          var k: nat :| k < |memo| && PairStrays(keys[0], Key(memo[k]));
          assert StraysAt(memo, keys, 0, k);
        case Err(MaxDepth(_)) =>
        case Err(TooManyVars) =>
          RememberGrows(More(memo, keys[0]), keys[1..]);
        case Ok(memo') =>
          assert keys[..1][1..] == [] && keys[..1][0] == keys[0];
          assert memo' == Remember(memo, keys[..1]);
          SettleIs(t, memo', keys[1..]);
          if Settle(t, memo', keys[1..]) == Err(Strayed) {
            var j: nat, k: nat :| j < |keys[1..]| && StraysAt(memo', keys[1..], j, k);
            StraysLater(memo, keys, j, k);
          }
      }
    }
  }

  // A hash table that always compares with entry `k` first.
  function Adversary(k: nat): Table {
    var p: Probe := (hs: seq<seq<Write>>, h: seq<Write>) => (if k < |hs| then [k] else []) + seq(|hs|, i => i);
    Table(p, p)
  }

  lemma AdversaryValid(k: nat)
    ensures Adversary(k).Valid()
  {
    forall hs: seq<seq<Write>>, h: seq<Write>, i: nat | i < |hs|
      ensures i in Adversary(k).get(hs, h)
    {
      assert seq(|hs|, i => i)[i] == i;
    }
  }

  lemma {:induction false} AdversaryStrays(memo: seq<MemoEntry>, keys: seq<EnvPair>, j: nat, k: nat)
    requires EntriesValid(memo) && j < |keys| && forall q | q in keys :: Sides(q)
    requires StraysAt(memo, keys, j, k)
    ensures Settle(Adversary(k), memo, keys) == Err(Strayed)
    decreases |keys|
  {
    hide KeyHash, Den, ValidEnv, Strays, PairStrays;
    assert Sides(keys[0]) && forall q | q in keys[1..] :: q in keys;
    assert keys[..0] == [];
    if j == 0 {
      assert Adversary(k).get(Hashes(memo), KeyHash(keys[0]))[0] == k;
    } else {
      MetMore(memo, keys[0]);
      assert keys[..1][1..] == [] && keys[..1][0] == keys[0];
      assert forall q | q in keys[..j] :: q in keys;
      assert keys[..j][1..] == keys[1..][..j - 1] && keys[..j][0] == keys[0];
      match SettleOne(Adversary(k), memo, keys[0]) {
        case Err(Strayed) =>
        case Err(MaxDepth(_)) =>
        case Err(TooManyVars) =>
          RememberGrows(More(memo, keys[0]), keys[1..][..j - 1]);
        case Ok(memo') =>
          StraysLater(memo, keys, j - 1, k);
          AdversaryStrays(memo', keys[1..], j - 1, k);
      }
    }
  }

  // Some hash table makes a comparison stray exactly when some key strays off one remembered before it.
  lemma StrayPossible(keys: seq<EnvPair>)
    requires forall q | q in keys :: Sides(q)
    ensures (exists t: Table :: t.Valid() && Settle(t, [], keys) == Err(Strayed))
       <==> (exists j: nat, k: nat :: j < |keys| && StraysAt([], keys, j, k))
  {
    hide StraysAt, Settle;
    if t: Table :| t.Valid() && Settle(t, [], keys) == Err(Strayed) {
      SettleIs(t, [], keys);
    }
    if j: nat, k: nat :| j < |keys| && StraysAt([], keys, j, k) {
      AdversaryValid(k);
      AdversaryStrays([], keys, j, k);
    }
  }

  // A table that compares only entries of the key's own hash.
  ghost predicate CollisionFree(t: Table) {
    && (forall hs, h, i | i in t.get(hs, h) :: i < |hs| && hs[i] == h)
    && (forall hs, h, i | i in t.insert(hs, h) :: i < |hs| && hs[i] == h)
  }

  lemma {:induction false} CollisionFreeNeverStrays(t: Table, memo: seq<MemoEntry>, keys: seq<EnvPair>)
    requires CollisionFree(t) && EntriesValid(memo) && forall q | q in keys :: Sides(q)
    ensures Settle(t, memo, keys) != Err(Strayed)
    decreases |keys|
  {
    hide KeyHash, Den, ValidEnv, Strays, PairStrays;
    if keys != [] {
      var q := keys[0];
      assert Sides(q) && forall q | q in keys[1..] :: q in keys;
      MetMore(memo, q);
      SameHashNeverStrays(memo, t.get(Hashes(memo), KeyHash(q)), q);
      SameHashNeverStrays(memo, t.insert(Hashes(memo), KeyHash(q)), q);
      match SettleOne(t, memo, q) {
        case Err(_) =>
        case Ok(memo') => CollisionFreeNeverStrays(t, memo', keys[1..]);
      }
    }
  }

  lemma SameHashNeverStrays(memo: seq<MemoEntry>, order: seq<nat>, q: EnvPair)
    requires EntriesValid(memo) && Sides(q)
    requires forall i | i in order :: i < |memo| && Hashes(memo)[i] == KeyHash(q)
    ensures !SearchStrays(memo, order, q)
  {
    hide KeyHash, Den, ValidEnv, Strays;
    forall k | 0 <= k < |order|
      ensures order[k] < |memo| && !PairStrays(q, Key(memo[order[k]]))
    {
      assert order[k] in order;
      var p := Key(memo[order[k]]);
      KeyHashDecides(p, q);
      KeyEqual(q.0, p.0);
      KeyEqual(q.1, p.1);
      EqualNeverStrays(q.0, p.0);
      EqualNeverStrays(q.1, p.1);
    }
  }
}
