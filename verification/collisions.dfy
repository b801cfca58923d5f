/** Collision avoidance: the `-Copy` suffix loop run before each rename.

While the target path exists, the script appends `"-Copy" + str(increment)`
to the name it already has, so suffixes accumulate after any extension:
`cafe.txt`, `cafe.txt-Copy0`, `cafe.txt-Copy0-Copy1`, ...  A directory is
modelled by the finite set of names it holds.  The empty name always
counts as existing, because joining the directory with `""` names the
directory itself.
 */
module Collisions {

  /** Python's `str(n)` for a natural number. */
  function DecimalString(n: nat): (r: string)
    ensures |r| >= 1
    ensures forall c :: c in r ==> '0' <= c <= '9'
    decreases n
  {
    if n < 10 then [DigitChar(n)] else DecimalString(n / 10) + [DigitChar(n % 10)]
  }

  function DigitChar(d: nat): (c: char)
    requires d < 10
    ensures '0' <= c <= '9'
  {
    "0123456789"[d]
  }

  /** Reading a decimal string back, used to show `DecimalString` is faithful. */
  function DecimalValue(s: string): int
    decreases |s|
  {
    if s == [] then 0 else DecimalValue(s[..|s| - 1]) * 10 + (s[|s| - 1] as int - '0' as int)
  }

  lemma {:induction false} DecimalRoundTrip(n: nat)
    ensures DecimalValue(DecimalString(n)) == n
    decreases n
  {
    var s := DecimalString(n);
    if n >= 10 {
      DecimalRoundTrip(n / 10);
      assert s[..|s| - 1] == DecimalString(n / 10);
    }
  }

  /** `os.path.exists(os.path.join(root, name))` over a directory holding `existing`. */
  predicate Taken(name: string, existing: set<string>) {
    name == [] || name in existing
  }

  /** The names of `existing` at least `n` characters long: the loop's
      termination measure, since each suffix makes the name longer. */
  function NotShorter(existing: set<string>, n: nat): set<string> {
    set x | x in existing && |x| >= n
  }

  lemma {:induction false} SubsetCardinality<T>(a: set<T>, b: set<T>)
    requires a <= b
    ensures |a| <= |b|
    decreases |b|
  {
    if a != {} {
      var x :| x in a;
      SubsetCardinality(a - {x}, b - {x});
    }
  }

  /** The name reached after `k` passes of the loop. */
  function CopyChain(candidate: string, k: nat): string
    decreases k
  {
    if k == 0 then candidate else CopyChain(candidate, k - 1) + "-Copy" + DecimalString(k - 1)
  }

  /** The loop from the pass with counter `increment` on. */
  function ResolveFrom(name: string, increment: nat, existing: set<string>): (r: string)
    ensures !Taken(r, existing)
    ensures |name| <= |r| && r[..|name|] == name
    ensures !Taken(name, existing) ==> r == name
    decreases |NotShorter(existing, |name|)| + (if name == [] then 1 else 0)
  {
    if !Taken(name, existing) then name
    else
      var next := name + "-Copy" + DecimalString(increment);
      SubsetCardinality(NotShorter(existing, |next|), NotShorter(existing, |name|) - {name});
      var r := ResolveFrom(next, increment + 1, existing);
      assert r[..|name|] == r[..|next|][..|name|];
      r
  }

  /** The free name the script renames to, starting from the sanitized candidate. */
  function ResolveFree(candidate: string, existing: set<string>): (r: string)
    ensures !Taken(r, existing)
    ensures |candidate| <= |r| && r[..|candidate|] == candidate
    ensures !Taken(candidate, existing) ==> r == candidate
  {
    ResolveFrom(candidate, 0, existing)
  }

  /** Reference search: the least index `m >= k` whose chain name is free. */
  function FirstFreeIndex(candidate: string, k: nat, existing: set<string>): (m: nat)
    ensures k <= m && !Taken(CopyChain(candidate, m), existing)
    ensures forall j :: k <= j < m ==> Taken(CopyChain(candidate, j), existing)
    decreases |NotShorter(existing, |CopyChain(candidate, k)|)| + (if CopyChain(candidate, k) == [] then 1 else 0)
  {
    var name := CopyChain(candidate, k);
    if !Taken(name, existing) then k
    else
      SubsetCardinality(NotShorter(existing, |CopyChain(candidate, k + 1)|), NotShorter(existing, |name|) - {name});
      FirstFreeIndex(candidate, k + 1, existing)
  }

  lemma {:induction false} ResolveFromChain(candidate: string, k: nat, existing: set<string>)
    ensures ResolveFrom(CopyChain(candidate, k), k, existing) == CopyChain(candidate, FirstFreeIndex(candidate, k, existing))
    decreases |NotShorter(existing, |CopyChain(candidate, k)|)| + (if CopyChain(candidate, k) == [] then 1 else 0)
  {
    var name := CopyChain(candidate, k);
    if Taken(name, existing) {
      SubsetCardinality(NotShorter(existing, |CopyChain(candidate, k + 1)|), NotShorter(existing, |name|) - {name});
      ResolveFromChain(candidate, k + 1, existing);
    }
  }

  /** The loop returns the first name of the chain `candidate`,
      `candidate-Copy0`, `candidate-Copy0-Copy1`, ... that is free: every
      earlier name of the chain is taken, so nothing is ever overwritten. */
  lemma ResolveFreeIsFirstFree(candidate: string, existing: set<string>)
    ensures ResolveFree(candidate, existing) == CopyChain(candidate, FirstFreeIndex(candidate, 0, existing))
  {
    ResolveFromChain(candidate, 0, existing);
  }
}
