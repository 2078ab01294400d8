/** Values shared by every encoding: optional results, gene values and
    genomes, and powers of two. */
module Common {

  datatype Option<+T> = None | Some(value: T)

  /** The value of one gene: a binary gene, an integer gene or a
      floating-point gene (modelled exactly as a real). */
  datatype Value = Bit(on: bool) | Int(n: int) | Real(x: real)

  /** A genome maps gene names to gene values; each encoding names its
      genes with its own key type. */
  type Genome<K> = map<K, Value>

  predicate HasBit<K(==)>(g: Genome<K>, k: K) { k in g && g[k].Bit? }
  predicate HasInt<K(==)>(g: Genome<K>, k: K) { k in g && g[k].Int? }
  predicate HasReal<K(==)>(g: Genome<K>, k: K) { k in g && g[k].Real? }

  /** A binary gene that is present and set. */
  predicate On<K(==)>(g: Genome<K>, k: K) { k in g && g[k] == Bit(true) }

  function BitOf<K(==)>(g: Genome<K>, k: K): bool requires HasBit(g, k) { g[k].on }
  function IntOf<K(==)>(g: Genome<K>, k: K): int requires HasInt(g, k) { g[k].n }
  function RealOf<K(==)>(g: Genome<K>, k: K): real requires HasReal(g, k) { g[k].x }

  function Pow2(n: nat): (r: nat)
    ensures r >= 1
  {
    if n == 0 then 1 else 2 * Pow2(n - 1)
  }

  function Max(a: int, b: int): int { if a >= b then a else b }

  /** C++'s `%` on int: the remainder truncates toward zero and so has
      the sign of the dividend. */
  function Rem(a: int, b: int): (r: int)
    requires b > 0
    ensures a >= 0 ==> 0 <= r < b
    ensures a < 0 ==> -b < r <= 0
  {
    if a >= 0 then a % b else -((-a) % b)
  }

  /** C++'s `/` on int, truncating toward zero. */
  function Quot(a: int, b: int): int
    requires b > 0
  {
    if a >= 0 then a / b else -((-a) / b)
  }

  /** The truncating remainder is what the truncating quotient leaves:
      a = (a / b) * b + a % b, as C++ guarantees. */
  lemma QuotRem(a: int, b: int)
    requires b > 0
    ensures a == Quot(a, b) * b + Rem(a, b)
  {
    if a < 0 {
      var q := (-a) / b;
      assert -a == q * b + (-a) % b;
      assert -q * b == -(q * b);
    }
  }

  /** Elements of a sequence are pairwise distinct. */
  predicate Distinct<T(==)>(s: seq<T>) {
    forall a, b :: 0 <= a < b < |s| ==> s[a] != s[b]
  }

  lemma DistinctAppend<T>(s: seq<T>, x: T)
    requires Distinct(s) && x !in s
    ensures Distinct(s + [x])
  {
  }

  lemma DistinctConcat<T>(s: seq<T>, t: seq<T>)
    requires Distinct(s) && Distinct(t)
    requires forall x :: x in s ==> x !in t
    ensures Distinct(s + t)
  {
    forall a, b | 0 <= a < b < |s + t| ensures (s + t)[a] != (s + t)[b] {
      if b < |s| {
      } else if a >= |s| {
        assert (s + t)[a] == t[a - |s|] && (s + t)[b] == t[b - |s|];
      } else {
        assert (s + t)[a] in s && (s + t)[b] in t;
      }
    }
  }
}
