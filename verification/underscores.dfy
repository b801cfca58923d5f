/** Stage 7 of the name pipeline: collapsing runs of underscores.

The script repeats Python's `name.replace('__', '_')` while `'__' in name`.
`ReplaceDouble` models one call of `str.replace` (a left-to-right scan that
rewrites non-overlapping occurrences), `Collapse` models the loop, and
`Squeeze` is an independent description of the intended outcome: every
maximal run of underscores shrinks to a single underscore.
 */
module Underscores {

  /** A `__` starts at position `i` of `s`. */
  predicate DoubleAt(s: string, i: int) {
    0 <= i < |s| - 1 && s[i] == '_' && s[i + 1] == '_'
  }

  /** Python's `'__' in s`. */
  predicate HasDouble(s: string) {
    exists i :: 0 <= i < |s| - 1 && DoubleAt(s, i)
  }

  predicate StartsWithUnderscore(s: string) {
    |s| > 0 && s[0] == '_'
  }

  /** One call of `s.replace('__', '_')`: non-overlapping, left to right. */
  function ReplaceDouble(s: string): string
    decreases |s|
  {
    if |s| >= 2 && s[0] == '_' && s[1] == '_' then "_" + ReplaceDouble(s[2..])
    else if s == [] then []
    else [s[0]] + ReplaceDouble(s[1..])
  }

  /** Reference meaning of the collapse: drop every underscore that
      directly follows another underscore. */
  function Squeeze(s: string): string
    decreases |s|
  {
    if s == [] then []
    else if |s| >= 2 && s[0] == '_' && s[1] == '_' then Squeeze(s[1..])
    else [s[0]] + Squeeze(s[1..])
  }

  /** One replace never lengthens the name, strictly shortens it when there is
      a `__` to rewrite, introduces no new character, and keeps at least one
      underscore when there was one. */
  lemma {:induction false} ReplaceDoubleFacts(s: string)
    ensures |ReplaceDouble(s)| <= |s|
    ensures HasDouble(s) ==> |ReplaceDouble(s)| < |s|
    ensures forall c :: c in ReplaceDouble(s) ==> c in s
    ensures '_' in s ==> '_' in ReplaceDouble(s)
    ensures StartsWithUnderscore(ReplaceDouble(s)) <==> StartsWithUnderscore(s)
    decreases |s|
  {
    if |s| >= 2 && s[0] == '_' && s[1] == '_' {
      ReplaceDoubleFacts(s[2..]);
      assert forall c :: c in s[2..] ==> c in s;
    } else if s != [] {
      var t := s[1..];
      ReplaceDoubleFacts(t);
      assert forall c :: c in t ==> c in s;
      if HasDouble(s) {
        var i :| 0 <= i < |s| - 1 && DoubleAt(s, i);
        assert i != 0;
        assert t[i - 1] == '_' && t[i] == '_';
        assert DoubleAt(t, i - 1);
      }
      if '_' in s && s[0] != '_' {
        assert '_' in t;
      }
      assert ReplaceDouble(s) == [s[0]] + ReplaceDouble(t);
    }
  }

  /** The loop `while '__' in name: name = name.replace('__', '_')`.  It
      terminates because each pass strictly shortens the name. */
  function Collapse(s: string): (r: string)
    ensures !HasDouble(r)
    ensures |r| <= |s|
    ensures forall c :: c in r ==> c in s
    ensures '_' in s ==> '_' in r
    decreases |s|
  {
    if HasDouble(s) then
      ReplaceDoubleFacts(s);
      Collapse(ReplaceDouble(s))
    else s
  }

  lemma {:induction false} SqueezeConsUnderscore(t: string)
    ensures Squeeze("_" + t) == if StartsWithUnderscore(t) then Squeeze(t) else "_" + Squeeze(t)
  {
    var s := "_" + t;
    assert s[1..] == t;
  }

  lemma {:induction false} SqueezeConsOther(c: char, t: string)
    requires c != '_' || !StartsWithUnderscore(t)
    ensures Squeeze([c] + t) == [c] + Squeeze(t)
  {
    var s := [c] + t;
    assert s[1..] == t;
  }

  /** A single replace pass does not change the squeezed form. */
  lemma {:induction false} SqueezeReplaceDouble(s: string)
    ensures Squeeze(ReplaceDouble(s)) == Squeeze(s)
    decreases |s|
  {
    if |s| >= 2 && s[0] == '_' && s[1] == '_' {
      var t := s[2..];
      SqueezeReplaceDouble(t);
      ReplaceDoubleFacts(t);
      SqueezeConsUnderscore(ReplaceDouble(t));
      assert s[1..] == "_" + t;
      SqueezeConsUnderscore(t);
    } else if s != [] {
      var t := s[1..];
      SqueezeReplaceDouble(t);
      ReplaceDoubleFacts(t);
      assert s == [s[0]] + t;
      SqueezeConsOther(s[0], ReplaceDouble(t));
      SqueezeConsOther(s[0], t);
    }
  }

  /** A name without `__` is its own squeezed form. */
  lemma {:induction false} SqueezeNoDouble(s: string)
    requires !HasDouble(s)
    ensures Squeeze(s) == s
    decreases |s|
  {
    if s != [] {
      var t := s[1..];
      assert !HasDouble(t) by {
        forall i | 0 <= i < |t| - 1
          ensures !DoubleAt(t, i)
        {
          assert t[i] == s[i + 1] && t[i + 1] == s[i + 2];
          assert !DoubleAt(s, i + 1);
        }
      }
      SqueezeNoDouble(t);
      assert !DoubleAt(s, 0);
      assert s == [s[0]] + t;
    }
  }

  /** The collapse loop yields exactly the squeezed name: every run of
      underscores becomes one underscore and nothing else changes. */
  lemma {:induction false} CollapseIsSqueeze(s: string)
    ensures Collapse(s) == Squeeze(s)
    decreases |s|
  {
    if HasDouble(s) {
      ReplaceDoubleFacts(s);
      CollapseIsSqueeze(ReplaceDouble(s));
      SqueezeReplaceDouble(s);
    } else {
      SqueezeNoDouble(s);
    }
  }

  /** A name without `__` is left alone by the collapse loop. */
  lemma CollapseNoDouble(s: string)
    requires !HasDouble(s)
    ensures Collapse(s) == s
  {
  }

  /** One leading `_` in front of a name without `_` makes no `__`. */
  lemma {:induction false} PrefixNoDouble(s: string)
    requires '_' !in s
    ensures !HasDouble("_" + s)
  {
    var g := "_" + s;
    forall i | 0 <= i < |g| - 1
      ensures !DoubleAt(g, i)
    {
      assert g[i + 1] == s[i];
    }
  }
}
