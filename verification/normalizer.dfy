/** The name normalizer: the stage pipeline applied to every file and
directory name before it is renamed.

The stages, in the script's order:
  1. force mode only: `removeAccentsAndAll` (NFD decomposition, then keep
     only the code points below 128);
  2. strip all leading, then all trailing, spaces;
  3. strip all trailing dots;
  4. blacklist mode only: replace each of 16 forbidden characters by `_`;
  5. prefix `_` to a name equal to one of 24 reserved device names;
  6. truncate to 249 characters;
  7. inside `/Users/` only: collapse `__` until none is left.

The Unicode NFD decomposition is a foreign library call; it is a parameter
of the configuration here and nothing is assumed about it.
 */
module Normalizer {
  import Underscores

  /** The characters replaced by `_` in blacklist mode, in the script's order. */
  const ForbiddenChars: seq<char> :=
    ['~', '\"', '#', '%', '&', '*', ':', '<', '>', '?', '/', '\\', '{', '|', '}', ',']

  /** Device names the sync target refuses, compared case-sensitively. */
  const ReservedNames: seq<string> :=
    ["AUX", "PRN", "NUL", "CON", "COM0", "COM1", "COM2", "COM3",
     "COM4", "COM5", "COM6", "COM7", "COM8", "COM9", "LPT0",
     "LPT1", "LPT2", "LPT3", "LPT4", "LPT5", "LPT6", "LPT7", "LPT8", "LPT9"]

  /** Names are cut to this many characters, leaving room for a `-Copy` suffix. */
  const MaxNameLength: nat := 249

  /** The run's choices: `force` selects accent stripping instead of the
      blacklist, `outsidePartition` is set when the folder is not under
      `/Users/`, and `nfd` stands for `unicodedata.normalize('NFD', _)`. */
  datatype Config = Config(force: bool, outsidePartition: bool, nfd: string -> string)

  predicate AllAscii(s: string) {
    forall c :: c in s ==> c as int < 128
  }

  predicate NoForbidden(s: string) {
    forall c :: c in s ==> c !in ForbiddenChars
  }

  predicate HasNonSpace(s: string) {
    exists i :: 0 <= i < |s| && s[i] != ' '
  }

  /** `name.encode('ascii', 'ignore')`: keep the code points below 128, in order. */
  function AsciiOnly(s: string): (r: string)
    ensures |r| <= |s|
    decreases |s|
  {
    if s == [] then [] else Keep(s[0]) + AsciiOnly(s[1..])
  }

  /** What the filter keeps of one character. */
  function Keep(c: char): string {
    if c as int < 128 then [c] else []
  }

  /** The filter keeps exactly the ASCII characters and leaves an ASCII name
      alone. */
  lemma {:induction false} AsciiOnlyMembers(s: string)
    ensures forall c :: c in AsciiOnly(s) <==> c in s && c as int < 128
    ensures AllAscii(s) ==> AsciiOnly(s) == s
    decreases |s|
  {
    if s != [] {
      var t := s[1..];
      AsciiOnlyMembers(t);
      assert s == [s[0]] + t;
      assert forall c :: c in s <==> c == s[0] || c in t;
      if AllAscii(s) {
        assert s[0] in s;
        assert AllAscii(t) by {
          forall c | c in t
            ensures c as int < 128
          {
            assert c in s;
          }
        }
      }
    }
  }

  /** The filter distributes over concatenation, so it keeps exactly the
      ASCII characters of the input, in their order. */
  lemma {:induction false} AsciiOnlyAppend(a: string, b: string)
    ensures AsciiOnly(a + b) == AsciiOnly(a) + AsciiOnly(b)
    decreases |a|
  {
    if a != [] {
      var t := a[1..];
      AsciiOnlyAppend(t, b);
      assert (a + b)[0] == a[0];
      assert (a + b)[1..] == t + b;
    } else {
      assert a + b == b;
    }
  }

  /** `removeAccentsAndAll`: NFD, then the ASCII filter. */
  function RemoveAccentsAndAll(name: string, nfd: string -> string): (r: string)
    ensures AllAscii(r)
    ensures forall c :: c in r ==> c in nfd(name)
  {
    AsciiOnlyMembers(nfd(name));
    AsciiOnly(nfd(name))
  }

  /** Stage 1: the accent filter in force mode, the name unchanged otherwise. */
  function Decode(name: string, cfg: Config): string {
    if cfg.force then RemoveAccentsAndAll(name, cfg.nfd) else name
  }

  /** The script reads `name[0]` and `name[-1]` in stage 2, which raises
      `IndexError` unless the decoded name has a character other than a space. */
  predicate Sanitizable(name: string, cfg: Config) {
    HasNonSpace(Decode(name, cfg))
  }

  /** `s.lstrip(c)`: every leading `c` removed. */
  function LStrip(s: string, c: char): (r: string)
    ensures |r| <= |s| && r == s[|s| - |r|..]
    ensures forall i :: 0 <= i < |s| - |r| ==> s[i] == c
    ensures r == [] || r[0] != c
    decreases |s|
  {
    if s != [] && s[0] == c then LStrip(s[1..], c) else s
  }

  /** `s.rstrip(c)`: every trailing `c` removed. */
  function RStrip(s: string, c: char): (r: string)
    ensures |r| <= |s| && r == s[..|r|]
    ensures forall i :: |r| <= i < |s| ==> s[i] == c
    ensures r == [] || r[|r| - 1] != c
    decreases |s|
  {
    if s != [] && s[|s| - 1] == c then RStrip(s[..|s| - 1], c) else s
  }

  /** `t` is `s` with a run of `c` removed from each end. */
  ghost predicate TrimmedOf(s: string, t: string, c: char) {
    exists i :: TrimmedAt(s, t, c, i)
  }

  /** `t` is `s[i..i + |t|]` and every character of `s` outside it is `c`. */
  ghost predicate TrimmedAt(s: string, t: string, c: char, i: int) {
    && 0 <= i <= |s| - |t| && t == s[i..i + |t|]
    && (forall k :: 0 <= k < i ==> s[k] == c)
    && (forall k :: i + |t| <= k < |s| ==> s[k] == c)
  }

  /** `r` is `s` without its leading and trailing spaces, and is not empty. */
  ghost predicate SpacesTrimmed(s: string, r: string) {
    r != [] && r[0] != ' ' && r[|r| - 1] != ' ' && TrimmedOf(s, r, ' ')
  }

  /** Stage 2.  Both strips are full strips, not one character at each end. */
  function StripSpaces(s: string): (r: string)
    requires HasNonSpace(s)
    ensures SpacesTrimmed(s, r)
  {
    // The script tests `name[0]` and `name[-1]` before each strip; a strip
    // of a name without a space at that end returns it unchanged, so only
    // the `IndexError` of those tests matters, and `Sanitizable` covers it.
    StripSpacesFacts(s);
    RStrip(LStrip(s, ' '), ' ')
  }

  lemma StripSpacesFacts(s: string)
    requires HasNonSpace(s)
    ensures SpacesTrimmed(s, RStrip(LStrip(s, ' '), ' '))
  {
    var a := LStrip(s, ' ');
    TrimmedBothEnds(s, a, RStrip(a, ' '));
  }

  /** A left strip `a` of `s` followed by a right strip `r` of `a` trims
      the spaces of `s`, and leaves its non-space characters. */
  lemma {:induction false} TrimmedBothEnds(s: string, a: string, r: string)
    requires HasNonSpace(s)
    requires |a| <= |s| && a == s[|s| - |a|..] && forall k :: 0 <= k < |s| - |a| ==> s[k] == ' '
    requires a == [] || a[0] != ' '
    requires |r| <= |a| && r == a[..|r|] && forall k :: |r| <= k < |a| ==> a[k] == ' '
    requires r == [] || r[|r| - 1] != ' '
    ensures SpacesTrimmed(s, r)
  {
    var i := |s| - |a|;
    var w :| 0 <= w < |s| && s[w] != ' ';
    assert i <= w;
    assert a[w - i] == s[w];
    assert w - i < |r|;
    assert r[0] == a[0];
    TrimBothEnds(s, a, r, ' ');
  }

  /** Stripping a prefix run and then a suffix run of `c` trims `s`. */
  lemma {:induction false} TrimBothEnds(s: string, a: string, r: string, c: char)
    requires |a| <= |s| && a == s[|s| - |a|..] && forall k :: 0 <= k < |s| - |a| ==> s[k] == c
    requires |r| <= |a| && r == a[..|r|] && forall k :: |r| <= k < |a| ==> a[k] == c
    ensures TrimmedAt(s, r, c, |s| - |a|)
    ensures TrimmedOf(s, r, c)
  {
    var i := |s| - |a|;
    forall j | 0 <= j < |r|
      ensures r[j] == s[i + j]
    {
      assert r[j] == a[j] == s[i + j];
    }
    assert r == s[i..i + |r|];
    forall k | i + |r| <= k < |s|
      ensures s[k] == c
    {
      assert s[k] == a[k - i];
    }
    assert TrimmedAt(s, r, c, i);
  }

  /** Stage 3: `if name[-1:] == '.': name = name.rstrip('.')`. */
  function StripDots(s: string): (r: string)
    ensures |r| <= |s| && r == s[..|r|]
    ensures forall i :: |r| <= i < |s| ==> s[i] == '.'
    ensures r == [] || r[|r| - 1] != '.'
  {
    if |s| > 0 && s[|s| - 1] == '.' then RStrip(s, '.') else s
  }

  /** `s.replace(x, y)` for single characters. */
  function ReplaceChar(s: string, x: char, y: char): (r: string)
    ensures |r| == |s|
    ensures forall i :: 0 <= i < |s| ==> r[i] == if s[i] == x then y else s[i]
    decreases |s|
  {
    if s == [] then [] else [if s[0] == x then y else s[0]] + ReplaceChar(s[1..], x, y)
  }

  /** The loop `for char in forbidden_char: name = name.replace(char, '_')`.
      Because `_` is not itself replaced, the passes together replace each
      listed character by `_` and leave every other character alone. */
  function ReplaceEach(s: string, chars: seq<char>): (r: string)
    requires '_' !in chars
    ensures |r| == |s|
    ensures forall i :: 0 <= i < |s| ==> r[i] == if s[i] in chars then '_' else s[i]
    decreases |chars|
  {
    if chars == [] then s else ReplaceEach(ReplaceChar(s, chars[0], '_'), chars[1..])
  }

  /** Every character of `s` that is in `chars` replaced by `_`. */
  function ReplaceAll(s: string, chars: seq<char>): string {
    seq(|s|, i requires 0 <= i < |s| => if s[i] in chars then '_' else s[i])
  }

  /** The passes of `ReplaceEach` together replace each listed character at
      once, because `_` is not itself listed. */
  lemma ReplaceEachIsReplaceAll(s: string, chars: seq<char>)
    requires '_' !in chars
    ensures ReplaceEach(s, chars) == ReplaceAll(s, chars)
  {
    var a := ReplaceEach(s, chars);
    var b := ReplaceAll(s, chars);
    forall i | 0 <= i < |s|
      ensures a[i] == b[i]
    {
    }
  }

  /** Stage 4 in blacklist mode, character by character: each forbidden
      character becomes `_`.  `ForbiddenLoop` shows that the script's loop of
      16 `replace` calls computes exactly this. */
  function ReplaceForbidden(s: string): string {
    ReplaceAll(s, ForbiddenChars)
  }

  /** The script's loop over the 16 forbidden characters is stage 4. */
  lemma ForbiddenLoop(s: string)
    ensures ReplaceEach(s, ForbiddenChars) == ReplaceForbidden(s)
  {
    assert '_' !in ForbiddenChars;
    ReplaceEachIsReplaceAll(s, ForbiddenChars);
  }

  /** After stage 4 no forbidden character is left. */
  lemma {:induction false} ForbiddenRemoved(s: string)
    ensures NoForbidden(ReplaceForbidden(s))
  {
    var r := ReplaceForbidden(s);
    assert '_' !in ForbiddenChars;
    forall c | c in r
      ensures c !in ForbiddenChars
    {
      var i :| 0 <= i < |r| && r[i] == c;
    }
  }

  /** Stage 4 leaves a name without forbidden characters alone. */
  lemma {:induction false} ForbiddenFreeUnchanged(s: string)
    requires NoForbidden(s)
    ensures ReplaceForbidden(s) == s
  {
    var r := ReplaceForbidden(s);
    forall i | 0 <= i < |s|
      ensures r[i] == s[i]
    {
      assert s[i] in s;
    }
  }

  /** The loop over `unauthorized_names`: each name equal to the current
      value gets `_` prepended.  With names that never start with `_`, at
      most one of them can match, so the prefix is added at most once. */
  function PrefixReserved(s: string, names: seq<string>): (r: string)
    requires forall i :: 0 <= i < |names| ==> names[i] == [] || names[i][0] != '_'
    ensures r == if s in names then "_" + s else s
    decreases |names|
  {
    if names == [] then s
    else
      var t := if s == names[0] then "_" + s else s;
      assert t == "_" + s ==> t !in names[1..];
      PrefixReserved(t, names[1..])
  }

  /** The reserved names described by their shape: the four three-letter
      devices, or `COM`/`LPT` followed by one digit. */
  predicate IsReserved(s: string) {
    || s == "AUX" || s == "PRN" || s == "NUL" || s == "CON"
    || (&& |s| == 4
        && ((s[0] == 'C' && s[1] == 'O' && s[2] == 'M') || (s[0] == 'L' && s[1] == 'P' && s[2] == 'T'))
        && '0' <= s[3] <= '9')
  }

  /** The script's list of 24 names is exactly the set `IsReserved` describes. */
  lemma {:induction false} ReservedNamesExactly(s: string)
    ensures s in ReservedNames <==> IsReserved(s)
  {
    if s in ReservedNames {
      ListedIsReserved(s);
    }
    if IsReserved(s) && |s| == 4 {
      var k := s[3] as int - '0' as int;
      var i := if s[0] == 'C' then 4 + k else 14 + k;
      assert ReservedNames[i] == s;
    }
  }

  lemma {:induction false} ListedIsReserved(s: string)
    requires s in ReservedNames
    ensures IsReserved(s)
  {
    var i :| 0 <= i < |ReservedNames| && ReservedNames[i] == s;
    if i < 4 {
      assert s in ["AUX", "PRN", "NUL", "CON"];
    } else if i < 14 {
      assert |s| == 4 && s[0] == 'C' && s[1] == 'O' && s[2] == 'M' && '0' <= s[3] <= '9';
    } else {
      assert |s| == 4 && s[0] == 'L' && s[1] == 'P' && s[2] == 'T' && '0' <= s[3] <= '9';
    }
  }

  /** No reserved name is empty or starts with `_`, so the fold below adds
      at most one prefix. */
  lemma ReservedNamesShape()
    ensures forall i :: 0 <= i < |ReservedNames| ==> ReservedNames[i] == [] || ReservedNames[i][0] != '_'
  {
  }

  /** Stage 5 by the shape of the reserved names.  `ReservedLoop` shows
      that the script's loop over its list of 24 names computes exactly this. */
  function GuardReserved(s: string): string {
    if IsReserved(s) then "_" + s else s
  }

  /** The script's loop over `unauthorized_names` is stage 5: exactly the
      reserved names, compared case-sensitively, get one `_` in front. */
  lemma ReservedLoop(s: string)
    ensures PrefixReserved(s, ReservedNames) == GuardReserved(s)
  {
    ReservedNamesShape();
    forall x
      ensures x in ReservedNames <==> IsReserved(x)
    {
      ReservedNamesExactly(x);
    }
    PrefixGuards(s, ReservedNames);
  }

  /** The fold over any list holding exactly the reserved names is stage 5. */
  lemma PrefixGuards(s: string, names: seq<string>)
    requires forall i :: 0 <= i < |names| ==> names[i] == [] || names[i][0] != '_'
    requires forall x :: x in names <==> IsReserved(x)
    ensures PrefixReserved(s, names) == GuardReserved(s)
  {
  }

  /** Stage 6. */
  function Truncate(s: string): (r: string)
    ensures |r| <= MaxNameLength
    ensures |r| <= |s| && r == s[..|r|]
    ensures |s| <= MaxNameLength ==> r == s
    ensures |s| > MaxNameLength ==> |r| == MaxNameLength
  {
    if |s| > MaxNameLength then s[..MaxNameLength] else s
  }

  /** Stages 1 to 5. */
  function Guarded(name: string, cfg: Config): string
    requires Sanitizable(name, cfg)
  {
    var s3 := StripDots(StripSpaces(Decode(name, cfg)));
    GuardReserved(if cfg.force then s3 else ReplaceForbidden(s3))
  }

  /** The whole pipeline: the name the script tries to rename to, before
      the `-Copy` collision suffix.  It fits in 249 characters and, inside
      the user partition, holds no `__`. */
  function Sanitize(name: string, cfg: Config): (r: string)
    requires Sanitizable(name, cfg)
    ensures |r| <= MaxNameLength
    ensures !cfg.outsidePartition ==> !Underscores.HasDouble(r)
  {
    var s6 := Truncate(Guarded(name, cfg));
    if cfg.outsidePartition then s6 else Underscores.Collapse(s6)
  }

  /** Inside the user partition every run of underscores of the truncated
      name shrinks to one underscore; outside it the runs are kept exactly. */
  lemma {:induction false} SanitizeSqueezesUnderscores(name: string, cfg: Config)
    requires Sanitizable(name, cfg)
    ensures !cfg.outsidePartition ==> Sanitize(name, cfg) == Underscores.Squeeze(Truncate(Guarded(name, cfg)))
    ensures cfg.outsidePartition ==> Sanitize(name, cfg) == Truncate(Guarded(name, cfg))
  {
    Underscores.CollapseIsSqueeze(Truncate(Guarded(name, cfg)));
  }

  /** Blacklist mode leaves no forbidden character; force mode leaves only
      ASCII characters.  No later stage brings a removed character back. */
  lemma {:induction false} SanitizeCharacters(name: string, cfg: Config)
    requires Sanitizable(name, cfg)
    ensures !cfg.force ==> NoForbidden(Sanitize(name, cfg))
    ensures cfg.force ==> AllAscii(Sanitize(name, cfg))
  {
    var g := Guarded(name, cfg);
    var s6 := Truncate(g);
    GuardedFacts(name, cfg);
    assert forall c :: c in s6 ==> c in g;
  }

  /** The result is never one of the reserved names. */
  lemma {:induction false} SanitizeNeverReserved(name: string, cfg: Config)
    requires Sanitizable(name, cfg)
    ensures !IsReserved(Sanitize(name, cfg))
  {
    var g := Guarded(name, cfg);
    GuardedFacts(name, cfg);
    var t := Truncate(g);
    assert !IsReserved(t) by {
      if |g| > MaxNameLength {
        LongNotReserved(t);
      }
    }
    if !cfg.outsidePartition {
      CollapsedNotReserved(t);
    }
  }

  /** A name holding `_` is never reserved. */
  lemma UnderscoreNotReserved(t: string)
    requires '_' in t
    ensures !IsReserved(t)
  {
  }

  /** A name longer than four characters is never reserved. */
  lemma LongNotReserved(t: string)
    requires |t| > 4
    ensures !IsReserved(t)
  {
  }

  lemma CollapsedNotReserved(t: string)
    requires !IsReserved(t)
    ensures !IsReserved(Underscores.Collapse(t))
  {
    if Underscores.HasDouble(t) {
      var i :| 0 <= i < |t| - 1 && Underscores.DoubleAt(t, i);
      assert '_' in t;
      UnderscoreNotReserved(Underscores.Collapse(t));
    }
  }

  /** What stages 1 to 5 guarantee, before truncation and collapsing. */
  lemma {:induction false} GuardedFacts(name: string, cfg: Config)
    requires Sanitizable(name, cfg)
    ensures !cfg.force ==> NoForbidden(Guarded(name, cfg))
    ensures cfg.force ==> AllAscii(Guarded(name, cfg))
    ensures !IsReserved(Guarded(name, cfg))
  {
    var s3 := StripDots(StripSpaces(Decode(name, cfg)));
    var s4 := if cfg.force then s3 else ReplaceForbidden(s3);
    assert Guarded(name, cfg) == GuardReserved(s4);
    GuardNotReserved(s4);
    if cfg.force {
      StagesKeepCharacters(Decode(name, cfg));
      AsciiGuarded(s4);
    } else {
      ForbiddenRemoved(s3);
      NoForbiddenGuarded(s4);
    }
  }

  lemma AsciiGuarded(s: string)
    requires AllAscii(s)
    ensures AllAscii(GuardReserved(s))
  {
    GuardPrefixOnly(s);
  }

  lemma {:induction false} NoForbiddenGuarded(s: string)
    requires NoForbidden(s)
    ensures NoForbidden(GuardReserved(s))
  {
    GuardPrefixOnly(s);
    NoForbiddenWithUnderscores(s, GuardReserved(s));
  }

  /** The result of stage 5 is never a reserved name. */
  lemma GuardNotReserved(s: string)
    ensures !IsReserved(GuardReserved(s))
  {
    if IsReserved(s) {
      UnderscoreNotReserved("_" + s);
    }
  }

  /** Adding underscores to a name free of forbidden characters keeps it free. */
  lemma NoForbiddenWithUnderscores(s: string, t: string)
    requires NoForbidden(s)
    requires forall c :: c in t ==> c == '_' || c in s
    ensures NoForbidden(t)
  {
  }

  /** Stages 2 and 3 only remove characters. */
  lemma {:induction false} StagesKeepCharacters(s1: string)
    requires HasNonSpace(s1)
    ensures forall c :: c in StripDots(StripSpaces(s1)) ==> c in s1
  {
    var s2 := StripSpaces(s1);
    var i :| TrimmedAt(s1, s2, ' ', i);
    SliceKeepsCharacters(s1, i, i + |s2|);
    PrefixKeepsCharacters(s2, |StripDots(s2)|);
  }

  lemma PrefixKeepsCharacters(s: string, j: int)
    requires 0 <= j <= |s|
    ensures forall c :: c in s[..j] ==> c in s
  {
    forall c | c in s[..j]
      ensures c in s
    {
      var k :| 0 <= k < j && s[k] == c;
    }
  }

  lemma SliceKeepsCharacters(s: string, i: int, j: int)
    requires 0 <= i <= j <= |s|
    ensures forall c :: c in s[i..j] ==> c in s
  {
    forall c | c in s[i..j]
      ensures c in s
    {
      var k :| i <= k < j && s[k] == c;
    }
  }

  /** Stage 5 adds nothing but a leading `_`. */
  lemma GuardPrefixOnly(s: string)
    ensures forall c :: c in GuardReserved(s) ==> c == '_' || c in s
  {
  }

  /** A decoded name that already meets every rule is what the script
      renames to, unchanged.  In force mode this holds even when the name
      keeps an ASCII forbidden character such as `:`. */
  predicate Clean(d: string) {
    && d != [] && d[0] != ' ' && d[|d| - 1] != ' ' && d[|d| - 1] != '.'
    && !IsReserved(d) && |d| <= MaxNameLength && !Underscores.HasDouble(d)
  }

  lemma {:induction false} CleanNameKept(name: string, cfg: Config)
    requires Clean(Decode(name, cfg))
    requires cfg.force || NoForbidden(Decode(name, cfg))
    ensures Sanitizable(name, cfg)
    ensures Sanitize(name, cfg) == Decode(name, cfg)
  {
    var d := Decode(name, cfg);
    assert d[0] != ' ';
    assert HasNonSpace(d);
    assert StripSpaces(d) == d;
    assert StripDots(d) == d;
    if !cfg.force {
      ForbiddenFreeUnchanged(d);
    }
    assert Guarded(name, cfg) == d;
    Underscores.CollapseNoDouble(d);
  }

  /** A name that equals a reserved device name once spaces and trailing
      dots are gone gets exactly one `_` in front, in both modes and both
      partitions. */
  lemma {:induction false} ReservedNameIsPrefixed(name: string, cfg: Config)
    requires Sanitizable(name, cfg)
    requires IsReserved(StripDots(StripSpaces(Decode(name, cfg))))
    ensures Sanitize(name, cfg) == "_" + StripDots(StripSpaces(Decode(name, cfg)))
  {
    var s3 := StripDots(StripSpaces(Decode(name, cfg)));
    ReservedShape(s3);
    if !cfg.force {
      ForbiddenFreeUnchanged(s3);
    }
    Underscores.PrefixNoDouble(s3);
    Underscores.CollapseNoDouble("_" + s3);
  }

  /** Reserved names are short and free of `_` and forbidden characters. */
  lemma {:induction false} ReservedShape(u: string)
    requires IsReserved(u)
    ensures |u| <= 4 && '_' !in u && NoForbidden(u)
  {
    forall c | c in u
      ensures c != '_' && c !in ForbiddenChars
    {
      assert 'A' <= c <= 'Z' || '0' <= c <= '9';
      AlphanumericAllowed(c);
    }
  }

  lemma AlphanumericAllowed(c: char)
    requires 'A' <= c <= 'Z' || '0' <= c <= '9'
    ensures c != '_' && c !in ForbiddenChars
  {
  }

  /** `CON`, `CON.` and `CON ` all reach stage 5 as the reserved `CON`,
      so `ReservedNameIsPrefixed` turns each into `_CON`. */
  // The example names are parameters fixed by `requires`: with the literals
  // written into the `ensures`, the verifier evaluates the whole pipeline on
  // them and runs out of resources.
  lemma {:induction false} ReservedSpellings(con: string, conDot: string, conSpace: string)
    requires con == "CON" && conDot == "CON." && conSpace == "CON "
    ensures HasNonSpace(con) && HasNonSpace(conDot) && HasNonSpace(conSpace)
    ensures StripDots(StripSpaces(con)) == con && IsReserved(con)
    ensures StripDots(StripSpaces(conDot)) == con
    ensures StripDots(StripSpaces(conSpace)) == con
  {
    UnpaddedKept(con);
    UnpaddedKept(conDot);
    assert conDot[..3] == con;
    assert conSpace[0] != ' ';
    assert conSpace[..3] == con;
    assert StripSpaces(conSpace) == con;
  }

  /** The comparison with the reserved names is case-sensitive: `con`
      passes stage 5 unchanged. */
  lemma {:induction false} LowerCaseNotReserved(lower: string)
    requires lower == "con"
    ensures HasNonSpace(lower) && StripDots(StripSpaces(lower)) == lower
    ensures !IsReserved(lower) && GuardReserved(lower) == lower
  {
    UnpaddedKept(lower);
  }

  /** A name that starts with neither a space nor ends with one or a dot
      passes stages 2 and 3 unchanged. */
  lemma {:induction false} UnpaddedKept(s: string)
    requires s != [] && s[0] != ' ' && s[|s| - 1] != ' '
    ensures HasNonSpace(s) && StripSpaces(s) == s
    ensures s[|s| - 1] != '.' ==> StripDots(StripSpaces(s)) == s
  {
    assert s[0] != ' ';
  }

  /** In force mode stage 4 is skipped, so an ASCII forbidden character
      such as `:` survives. */
  lemma {:induction false} ForceKeepsColon(name: string, cfg: Config)
    requires cfg.force && cfg.nfd(name) == "a:b"
    ensures Sanitizable(name, cfg) && Sanitize(name, cfg) == "a:b"
  {
    var d := Decode(name, cfg);
    AsciiOnlyMembers(cfg.nfd(name));
    assert AllAscii(d) by {
      assert forall c :: c in d ==> c == 'a' || c == ':' || c == 'b';
    }
    assert d == "a:b";
    assert !Underscores.DoubleAt(d, 0) && !Underscores.DoubleAt(d, 1);
    assert Clean(d);
    CleanNameKept(name, cfg);
  }

  /** Spaces are stripped before dots, so `a .` leaves stage 3 as `a ` with
      a trailing space, which a second pass would strip: the pipeline is not
      idempotent. */
  lemma SpaceBeforeDot()
    ensures HasNonSpace("a .")
    ensures StripDots(StripSpaces("a .")) == "a "
    ensures StripSpaces("a ") == "a"
  {
    var s := "a .";
    assert s[0] != ' ';
    assert StripSpaces(s) == s;
    assert s[..2] == "a ";
    assert RStrip(s[..2], '.') == "a ";
    var t := "a ";
    assert t[0] != ' ';
    assert t[..1] == "a";
  }
}
