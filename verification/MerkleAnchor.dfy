/**
 * The Merkle root that anchors a chain of record hashes. Hashes are given by their 32 bytes, of which the lower-case
 * hexadecimal texts in the records are one-to-one images; SHA-256 is a parameter.
 */
module MerkleAnchor {
  import Utf8

  type Bytes = seq<Utf8.Byte>
  type Hash = Bytes -> Bytes

  /** The ASCII bytes of "REGULAYER_EMPTY_CHAIN". */
  const EMPTY_CHAIN: Bytes :=
    [82, 69, 71, 85, 76, 65, 89, 69, 82, 95, 69, 77, 80, 84, 89, 95, 67, 72, 65, 73, 78]

  predicate IsDigest(h: Bytes) {
    |h| == 32
  }

  ghost predicate Digests(sha: Hash) {
    forall b :: IsDigest(sha(b))
  }

  predicate AllDigests(hs: seq<Bytes>) {
    forall i :: 0 <= i < |hs| ==> IsDigest(hs[i])
  }

  /** One level up: pairs are hashed together, an odd last leaf with itself. */
  function Level(sha: Hash, hs: seq<Bytes>): (r: seq<Bytes>)
    ensures |r| == (|hs| + 1) / 2
  {
    if hs == [] then []
    else if |hs| == 1 then [sha(hs[0] + hs[0])]
    else [sha(hs[0] + hs[1])] + Level(sha, hs[2..])
  }

  function Root(sha: Hash, hs: seq<Bytes>): Bytes
    decreases |hs|
  {
    if hs == [] then sha(EMPTY_CHAIN)
    else if |hs| == 1 then hs[0]
    else Root(sha, Level(sha, hs))
  }

  /** Node k of a level hashes the two below it, the last one with itself when it has no partner. */
  lemma {:induction false} LevelAt(sha: Hash, hs: seq<Bytes>, k: nat)
    requires k < |Level(sha, hs)|
    ensures Level(sha, hs)[k] == sha(hs[2 * k] + if 2 * k + 1 < |hs| then hs[2 * k + 1] else hs[2 * k])
    decreases k
  {
    if k > 0 {
      LevelAt(sha, hs[2..], k - 1);
    }
  }

  /** As long as more than one node is left, the root is that of the next level. */
  lemma RootAbove(sha: Hash, hs: seq<Bytes>, above: seq<Bytes>)
    requires |hs| > 1 && |above| == (|hs| + 1) / 2
    requires forall k :: 0 <= k < |above| ==>
               above[k] == sha(hs[2 * k] + if 2 * k + 1 < |hs| then hs[2 * k + 1] else hs[2 * k])
    ensures Root(sha, hs) == Root(sha, above)
  {
    forall k | 0 <= k < |above| ensures above[k] == Level(sha, hs)[k] {
      LevelAt(sha, hs, k);
    }
    assert above == Level(sha, hs);
  }

  lemma RootOfTwo(sha: Hash, a: Bytes, b: Bytes)
    ensures Root(sha, [a, b]) == sha(a + b)
  {
    RootAbove(sha, [a, b], [sha(a + b)]);
  }

  /** An empty chain is anchored by the hash of a fixed text, a single record by its own hash. */
  lemma SmallRoots(sha: Hash, a: Bytes, b: Bytes, c: Bytes)
    ensures Root(sha, []) == sha(EMPTY_CHAIN) && Root(sha, [a]) == a && Root(sha, [a, b]) == sha(a + b)
    ensures Root(sha, [a, b, c]) == sha(sha(a + b) + sha(c + c))
  {
    RootOfTwo(sha, a, b);
    RootOfTwo(sha, sha(a + b), sha(c + c));
    RootAbove(sha, [a, b, c], [sha(a + b), sha(c + c)]);
  }

  lemma EmptyChainText(text: string)
    requires text == "REGULAYER_EMPTY_CHAIN"
    ensures Utf8.Encode(text) == EMPTY_CHAIN
  {
    Utf8.EncodeAscii(text);
  }

  /** The leaves from position i on. */
  function From(leaves: seq<Bytes>, i: nat): seq<Bytes> {
    if i < |leaves| then leaves[i..] else []
  }

  lemma LevelStep(sha: Hash, next: seq<Bytes>, leaves: seq<Bytes>, i: nat)
    requires i < |leaves|
    ensures next + Level(sha, From(leaves, i))
         == next + [sha(leaves[i] + if i + 1 < |leaves| then leaves[i + 1] else leaves[i])]
          + Level(sha, From(leaves, i + 2))
  {
    if i + 2 <= |leaves| {
      assert leaves[i..][2..] == leaves[i + 2..];
    }
  }

  method GenerateMerkleAnchor(sha: Hash, hashes: seq<Bytes>) returns (root: Bytes)
    ensures root == Root(sha, hashes)
  {
    if hashes == [] {
      return sha(EMPTY_CHAIN);
    }
    var leaves := hashes;
    while |leaves| > 1
      invariant leaves != [] && Root(sha, leaves) == Root(sha, hashes)
      decreases |leaves|
    {
      leaves := NextLevel(sha, leaves);
    }
    return leaves[0];
  }

  method NextLevel(sha: Hash, leaves: seq<Bytes>) returns (next: seq<Bytes>)
    ensures next == Level(sha, leaves)
  {
    next := [];
    var i := 0;
    while i < |leaves|
      invariant 0 <= i && next + Level(sha, From(leaves, i)) == Level(sha, leaves)
    {
      var left := leaves[i];
      var right := if i + 1 < |leaves| then leaves[i + 1] else left;
      LevelStep(sha, next, leaves, i);
      next := next + [sha(left + right)];
      i := i + 2;
    }
  }

  // ---- what is hashed on the way to a root ----

  function LevelInputs(hs: seq<Bytes>): set<Bytes> {
    if hs == [] then {}
    else if |hs| == 1 then {hs[0] + hs[0]}
    else {hs[0] + hs[1]} + LevelInputs(hs[2..])
  }

  function Inputs(sha: Hash, hs: seq<Bytes>): set<Bytes>
    decreases |hs|
  {
    if hs == [] then {EMPTY_CHAIN}
    else if |hs| == 1 then {}
    else LevelInputs(hs) + Inputs(sha, Level(sha, hs))
  }

  /** Two different texts with one hash, the first hashed for a and the second for b. */
  ghost predicate Collision(sha: Hash, a: set<Bytes>, b: set<Bytes>) {
    exists x, y :: x in a && y in b && x != y && sha(x) == sha(y)
  }

  lemma CollisionGrows(sha: Hash, a: set<Bytes>, b: set<Bytes>, more: set<Bytes>, others: set<Bytes>)
    requires Collision(sha, a, b) && a <= more && b <= others
    ensures Collision(sha, more, others)
  {
    var x, y :| x in a && y in b && x != y && sha(x) == sha(y);
    assert x in more && y in others;
  }

  lemma JoinInjective(a: Bytes, b: Bytes, c: Bytes, d: Bytes)
    requires IsDigest(a) && IsDigest(b) && IsDigest(c) && IsDigest(d)
    ensures a + b == c + d <==> a == c && b == d
  {
    assert (a + b)[..32] == a && (a + b)[32..] == b && (c + d)[..32] == c && (c + d)[32..] == d;
  }

  lemma {:induction false} LevelDigests(sha: Hash, hs: seq<Bytes>)
    requires Digests(sha)
    ensures AllDigests(Level(sha, hs))
  {
    if |hs| > 1 {
      LevelDigests(sha, hs[2..]);
    }
  }

  /** Lists of one length with one level above them are the same list, or collide on the way up. */
  lemma {:induction false} SameLevel(sha: Hash, a: seq<Bytes>, b: seq<Bytes>)
    requires AllDigests(a) && AllDigests(b) && |a| == |b| && Level(sha, a) == Level(sha, b)
    ensures a == b || Collision(sha, LevelInputs(a), LevelInputs(b))
  {
    if |a| == 1 {
      JoinInjective(a[0], a[0], b[0], b[0]);
      assert Level(sha, a)[0] == Level(sha, b)[0];
      assert a[0] != b[0] ==> a[0] + a[0] in LevelInputs(a) && b[0] + b[0] in LevelInputs(b);
    } else if |a| > 1 {
      JoinInjective(a[0], a[1], b[0], b[1]);
      assert Level(sha, a)[0] == Level(sha, b)[0] && Level(sha, a)[1..] == Level(sha, b)[1..];
      var x, y := a[0] + a[1], b[0] + b[1];
      assert x in LevelInputs(a) && y in LevelInputs(b);
      if x == y {
        SameLevel(sha, a[2..], b[2..]);
        if a[2..] == b[2..] {
          assert a == [a[0], a[1]] + a[2..] && b == [b[0], b[1]] + b[2..];
        } else {
          CollisionGrows(sha, LevelInputs(a[2..]), LevelInputs(b[2..]), LevelInputs(a), LevelInputs(b));
        }
      }
    }
  }

  /** Chains of one length with one root are the same chain, or collide on the way up. */
  lemma {:induction false} SameRoot(sha: Hash, a: seq<Bytes>, b: seq<Bytes>)
    requires Digests(sha) && AllDigests(a) && AllDigests(b) && |a| == |b| && Root(sha, a) == Root(sha, b)
    ensures a == b || Collision(sha, Inputs(sha, a), Inputs(sha, b))
    decreases |a|
  {
    if |a| == 1 {
      assert a == [a[0]] && b == [b[0]];
    } else if |a| > 1 {
      var u, v := Level(sha, a), Level(sha, b);
      LevelDigests(sha, a);
      LevelDigests(sha, b);
      SameRoot(sha, u, v);
      if u == v {
        SameLevel(sha, a, b);
        if a != b {
          CollisionGrows(sha, LevelInputs(a), LevelInputs(b), Inputs(sha, a), Inputs(sha, b));
        }
      } else {
        CollisionGrows(sha, Inputs(sha, u), Inputs(sha, v), Inputs(sha, a), Inputs(sha, b));
      }
    }
  }

  // ---- lengths ----

  /** With every hash function: an odd chain and the chain with its last record once more have one root. */
  lemma {:induction false} OddTailRepeats(sha: Hash, hs: seq<Bytes>)
    requires |hs| % 2 == 1
    ensures Level(sha, hs + [hs[|hs| - 1]]) == Level(sha, hs)
  {
    var more := hs + [hs[|hs| - 1]];
    if |hs| == 1 {
      assert more[2..] == [];
    } else {
      var rest := hs[2..];
      OddTailRepeats(sha, rest);
      assert more[2..] == rest + [rest[|rest| - 1]];
    }
  }

  lemma OddChainRootRepeats(sha: Hash, hs: seq<Bytes>)
    requires |hs| % 2 == 1 && |hs| >= 3
    ensures Root(sha, hs + [hs[|hs| - 1]]) == Root(sha, hs)
  {
    OddTailRepeats(sha, hs);
  }

  /** The root of a chain of two or more is a hash of 64 bytes. */
  lemma {:induction false} RootIsHashed(sha: Hash, hs: seq<Bytes>) returns (x: Bytes)
    requires Digests(sha) && AllDigests(hs) && |hs| >= 2
    ensures x in Inputs(sha, hs) && |x| == 64 && sha(x) == Root(sha, hs)
    decreases |hs|
  {
    if |hs| == 2 {
      x := hs[0] + hs[1];
      assert hs[2..] == [];
      assert Level(sha, hs) == [sha(x)];
      assert x in LevelInputs(hs);
    } else {
      LevelDigests(sha, hs);
      x := RootIsHashed(sha, Level(sha, hs));
    }
  }

  lemma CollisionOf(sha: Hash, x: Bytes, y: Bytes, a: set<Bytes>, b: set<Bytes>)
    requires x in a && y in b && x != y && sha(x) == sha(y)
    ensures Collision(sha, a, b) && Collision(sha, b, a)
  {
  }

  /** The empty chain shares its root with no chain of two or more, short of a collision. */
  lemma EmptyRoot(sha: Hash, hs: seq<Bytes>)
    requires Digests(sha) && AllDigests(hs) && |hs| >= 2 && Root(sha, hs) == Root(sha, [])
    ensures Collision(sha, Inputs(sha, hs), Inputs(sha, [])) && Collision(sha, Inputs(sha, []), Inputs(sha, hs))
  {
    var x := RootIsHashed(sha, hs);
    CollisionOf(sha, x, EMPTY_CHAIN, Inputs(sha, hs), Inputs(sha, []));
  }

  /** Chains of m and n records with one root are the same chain or collide, whatever the hash function. */
  ghost predicate Binding(m: nat, n: nat) {
    forall sha: Hash, a: seq<Bytes>, b: seq<Bytes> ::
      Digests(sha) && AllDigests(a) && AllDigests(b) && |a| == m && |b| == n && Root(sha, a) == Root(sha, b)
      ==> a == b || Collision(sha, Inputs(sha, a), Inputs(sha, b))
  }

  function Zeros(): Bytes {
    seq(32, _ => 0)
  }

  /** A hash function that maps every doubled digest back to the digest. */
  function Halving(b: Bytes): Bytes {
    if |b| == 64 then b[..32] else Zeros()
  }

  function Uniform(n: nat): seq<Bytes> {
    if n == 0 then [] else [Zeros()] + Uniform(n - 1)
  }

  lemma {:induction false} UniformAt(n: nat)
    ensures |Uniform(n)| == n && forall i :: 0 <= i < n ==> Uniform(n)[i] == Zeros()
  {
    if n > 0 {
      UniformAt(n - 1);
    }
  }

  lemma HalvingDoubles()
    ensures Halving(Zeros() + Zeros()) == Zeros()
  {
    assert (Zeros() + Zeros())[..32] == Zeros();
  }

  lemma {:induction false} UniformLevel(n: nat)
    ensures Level(Halving, Uniform(n)) == Uniform((n + 1) / 2)
    ensures n > 0 ==> LevelInputs(Uniform(n)) == {Zeros() + Zeros()}
  {
    HalvingDoubles();
    UniformAt(n);
    if n >= 2 {
      assert Uniform(n)[2..] == Uniform(n - 2);
      UniformLevel(n - 2);
    }
  }

  lemma {:induction false} UniformRoot(n: nat)
    requires n > 0
    ensures Root(Halving, Uniform(n)) == Zeros() && Inputs(Halving, Uniform(n)) <= {Zeros() + Zeros()}
  {
    UniformAt(n);
    if n > 1 {
      UniformLevel(n);
      UniformRoot((n + 1) / 2);
    }
  }

  lemma UniformApart(m: nat, n: nat)
    requires m != n && (m > 0 || n == 1) && (n > 0 || m == 1)
    ensures Root(Halving, Uniform(m)) == Root(Halving, Uniform(n)) && Uniform(m) != Uniform(n)
  {
    UniformAt(m);
    UniformAt(n);
    if m > 0 {
      UniformRoot(m);
    }
    if n > 0 {
      UniformRoot(n);
    }
  }

  lemma UniformNeverCollides(m: nat, n: nat)
    requires m != n && (m > 0 || n == 1) && (n > 0 || m == 1)
    ensures !Collision(Halving, Inputs(Halving, Uniform(m)), Inputs(Halving, Uniform(n)))
  {
    if m == 0 || n == 0 {
      UniformAt(1);
    } else {
      UniformRoot(m);
      UniformRoot(n);
    }
  }

  lemma NotBinding(m: nat, n: nat)
    requires m != n && (m > 0 || n == 1) && (n > 0 || m == 1)
    ensures !Binding(m, n)
  {
    var a, b := Uniform(m), Uniform(n);
    UniformAt(m);
    UniformAt(n);
    UniformApart(m, n);
    UniformNeverCollides(m, n);
    assert Digests(Halving) && AllDigests(a) && AllDigests(b);
  }

  /**
   * Exactly which lengths a root tells apart: equal lengths, and an empty chain from a chain of two or more. Any other
   * two lengths have chains with one root although nothing collides.
   */
  lemma RootBindsExactly(m: nat, n: nat)
    ensures Binding(m, n) <==> m == n || (m == 0 && n >= 2) || (n == 0 && m >= 2)
  {
    if m == n || (m == 0 && n >= 2) || (n == 0 && m >= 2) {
      forall sha: Hash, a: seq<Bytes>, b: seq<Bytes> |
        Digests(sha) && AllDigests(a) && AllDigests(b) && |a| == m && |b| == n && Root(sha, a) == Root(sha, b)
        ensures a == b || Collision(sha, Inputs(sha, a), Inputs(sha, b))
      {
        if m == n {
          SameRoot(sha, a, b);
        } else if m == 0 {
          assert a == [];
          EmptyRoot(sha, b);
        } else {
          assert b == [];
          EmptyRoot(sha, a);
        }
      }
    } else {
      NotBinding(m, n);
    }
  }
}
