/** The search for OneDrive folders under a user's home directory.

At each directory the walk visits, the search first drops the subdirectories
named `Library` or `.Trash`, then records every remaining subdirectory whose
name matches the glob `*[Oo][Nn][Ee][Dd][Rr][Ii][Vv][Ee]*`, and removes the
recorded ones from the list the walk descends into.  The glob is modelled by
a small matcher for `*` and character classes (the only pattern features it
uses), and `ContainsOneDrive` is the independent meaning of the match:
`onedrive` occurs in the name when ASCII upper-case letters are lowered.
 */
module FolderSearch {
  import Lists

  /** Subdirectories the search never enters. */
  const Excluded: set<string> := {"Library", ".Trash"}

  /** One element of an `fnmatch` pattern: `*` or a class such as `[Oo]`. */
  datatype Item = Star | OneOf(chars: set<char>)

  /** `fnmatch`: whether all of `s` matches all of `p`.  On POSIX the name is
      compared as it is, without case folding. */
  function Matches(p: seq<Item>, s: string): bool
    decreases |p| + |s|
  {
    if p == [] then s == []
    else if p[0].Star? then Matches(p[1..], s) || (s != [] && Matches(p, s[1..]))
    else s != [] && s[0] in p[0].chars && Matches(p[1..], s[1..])
  }

  /** The classes `[Oo][Nn][Ee][Dd][Rr][Ii][Vv][Ee]`. */
  const Letters: seq<Item> :=
    [OneOf({'O', 'o'}), OneOf({'N', 'n'}), OneOf({'E', 'e'}), OneOf({'D', 'd'}),
     OneOf({'R', 'r'}), OneOf({'I', 'i'}), OneOf({'V', 'v'}), OneOf({'E', 'e'})]

  /** The glob `*[Oo][Nn][Ee][Dd][Rr][Ii][Vv][Ee]*`. */
  const OneDrivePattern: seq<Item> := [Star] + Letters + [Star]

  const Word: string := "onedrive"

  /** Lowering of the ASCII letters `A` to `Z`; every other character is kept. */
  function LowerAscii(c: char): char {
    if 'A' <= c <= 'Z' then (c as int + 32) as char else c
  }

  /** `onedrive`, in any mix of letter cases, starts at position `i` of `s`. */
  predicate OneDriveAt(s: string, i: int) {
    0 <= i <= |s| - |Word| && forall k :: 0 <= k < |Word| ==> LowerAscii(s[i + k]) == Word[k]
  }

  predicate ContainsOneDrive(s: string) {
    exists i :: 0 <= i <= |s| - |Word| && OneDriveAt(s, i)
  }

  /** `*` matches everything. */
  lemma {:induction false} StarMatchesAll(s: string)
    ensures Matches([Star], s)
    decreases |s|
  {
    if s != [] {
      StarMatchesAll(s[1..]);
    }
  }

  /** The first `|q|` characters of `s` fall in the classes of `q`, one by one. */
  predicate ClassesAt(q: seq<Item>, s: string) {
    |q| <= |s| && forall k :: 0 <= k < |q| ==> q[k].OneOf? && s[k] in q[k].chars
  }

  /** Classes followed by `*` match exactly the strings whose first
      characters fall in the classes. */
  lemma {:induction false} ClassesThenStar(q: seq<Item>, s: string)
    requires forall k :: 0 <= k < |q| ==> q[k].OneOf?
    ensures Matches(q + [Star], s) <==> ClassesAt(q, s)
    decreases |q|
  {
    var p := q + [Star];
    if q == [] {
      assert p == [Star];
      StarMatchesAll(s);
    } else {
      assert p[1..] == q[1..] + [Star];
      if s != [] {
        ClassesThenStar(q[1..], s[1..]);
        if s[0] in q[0].chars && ClassesAt(q[1..], s[1..]) {
          forall k | 0 <= k < |q|
            ensures s[k] in q[k].chars
          {
            if k > 0 {
              assert s[k] == s[1..][k - 1] && q[k] == q[1..][k - 1];
            }
          }
        }
        if ClassesAt(q, s) {
          forall k | 0 <= k < |q| - 1
            ensures s[1..][k] in q[1..][k].chars
          {
            assert s[k + 1] in q[k + 1].chars;
          }
        }
      }
    }
  }

  /** A leading `*` lets the rest of the pattern match any suffix. */
  lemma {:induction false} LeadingStar(r: seq<Item>, s: string)
    ensures Matches([Star] + r, s) <==> exists i :: 0 <= i <= |s| && Matches(r, s[i..])
    decreases |s|
  {
    var p := [Star] + r;
    assert p[1..] == r;
    assert s[0..] == s;
    if s != [] {
      LeadingStar(r, s[1..]);
      if exists i :: 0 <= i <= |s| && Matches(r, s[i..]) {
        var i :| 0 <= i <= |s| && Matches(r, s[i..]);
        if i > 0 {
          assert s[1..][i - 1..] == s[i..];
        }
      }
      if Matches(p, s) && !Matches(r, s) {
        var i :| 0 <= i <= |s| - 1 && Matches(r, s[1..][i..]);
        assert s[1..][i..] == s[i + 1..];
      }
    }
  }

  /** Each class of the pattern is one letter of `onedrive`, in either case. */
  lemma LetterClass(k: int, c: char)
    requires 0 <= k < |Word|
    ensures Letters[k].OneOf?
    ensures c in Letters[k].chars <==> LowerAscii(c) == Word[k]
  {
  }

  /** The glob the script uses matches exactly the names that contain
      `onedrive` in any mix of ASCII letter cases. */
  lemma {:induction false} OneDriveMatchIff(d: string)
    ensures Matches(OneDrivePattern, d) <==> ContainsOneDrive(d)
  {
    assert OneDrivePattern == [Star] + (Letters + [Star]);
    LeadingStar(Letters + [Star], d);
    forall k | 0 <= k < |Letters|
      ensures Letters[k].OneOf?
    {
      LetterClass(k, 'a');
    }
    forall i | 0 <= i <= |d|
      ensures Matches(Letters + [Star], d[i..]) <==> OneDriveAt(d, i)
    {
      ClassesThenStar(Letters, d[i..]);
      if |d| - i >= |Word| {
        forall k | 0 <= k < |Word|
          ensures d[i..][k] in Letters[k].chars <==> LowerAscii(d[i + k]) == Word[k]
        {
          LetterClass(k, d[i + k]);
        }
      }
    }
    if ContainsOneDrive(d) {
      var i :| 0 <= i <= |d| - |Word| && OneDriveAt(d, i);
      assert Matches(Letters + [Star], d[i..]);
    }
  }

  /** `os.path.join(root, d)` on POSIX. */
  function Join(root: string, d: string): (r: string)
    ensures |d| <= |r| && r[|r| - |d|..] == d
    ensures d == [] || d[0] != '/' ==> |root| <= |r| && r[..|root|] == root
    ensures d != [] && d[0] == '/' ==> r == d
    ensures (d == [] || d[0] != '/') && root != [] && root[|root| - 1] != '/' ==> r == root + "/" + d
    ensures (d == [] || d[0] != '/') && (root == [] || root[|root| - 1] == '/') ==> r == root + d
  {
    if d != [] && d[0] == '/' then d
    else if root == [] || root[|root| - 1] == '/' then root + d
    else root + "/" + d
  }

  /** The last component of a POSIX path: the text after its last `/`, as in
      `os.path.basename`. */
  function Basename(p: string): (r: string)
    ensures |r| <= |p| && r == p[|p| - |r|..]
    ensures '/' !in r
    ensures |r| < |p| ==> p[|p| - |r| - 1] == '/'
    decreases |p|
  {
    if p == [] || p[|p| - 1] == '/' then []
    else Basename(p[..|p| - 1]) + [p[|p| - 1]]
  }

  lemma BasenameSnoc(q: string, c: char)
    requires c != '/'
    ensures Basename(q + [c]) == Basename(q) + [c]
  {
    assert (q + [c])[..|q|] == q;
  }

  /** Text without `/` placed after a separator is the last component. */
  lemma {:induction false} BasenameAfterSlash(x: string, d: string)
    requires x == [] || x[|x| - 1] == '/'
    requires '/' !in d
    ensures Basename(x + d) == d
    decreases |d|
  {
    if d != [] {
      var init, last := d[..|d| - 1], d[|d| - 1];
      assert x + d == (x + init) + [last] by {
        assert init + [last] == d;
      }
      assert last != '/' by {
        assert last in d;
      }
      assert Basename(x + init) == init by {
        assert forall k :: 0 <= k < |init| ==> init[k] == d[k];
        BasenameAfterSlash(x, init);
      }
      BasenameSnoc(x + init, last);
      assert init + [last] == d;
    }
  }

  /** Joining a name without `/` to any root gives back that name as the last
      component, so each recorded path ends in the matching folder's name. */
  lemma JoinBasename(root: string, d: string)
    requires '/' !in d
    ensures Basename(Join(root, d)) == d
  {
    assert d == [] || d[0] in d;
    var x := if root == [] || root[|root| - 1] == '/' then root else root + "/";
    assert Join(root, d) == x + d;
    BasenameAfterSlash(x, d);
  }

  /** `[d for d in dirnames if d not in exclude]` */
  function Unexcluded(ds: seq<string>): (r: seq<string>)
    ensures forall d :: d in r <==> d in ds && d !in Excluded
    ensures Lists.Distinct(ds) ==> Lists.Distinct(r)
    decreases |ds|
  {
    if ds == [] then []
    else
      var rest := Unexcluded(ds[1..]);
      assert forall d :: d in ds <==> d == ds[0] || d in ds[1..];
      Lists.DistinctTail(ds);
      if ds[0] in Excluded then rest else [ds[0]] + rest
  }

  /** `fnmatch.filter(ds, '*[Oo][Nn][Ee][Dd][Rr][Ii][Vv][Ee]*')` */
  function Recorded(ds: seq<string>): (r: seq<string>)
    ensures forall d :: d in r <==> d in ds && Matches(OneDrivePattern, d)
    ensures Lists.Distinct(ds) ==> Lists.Distinct(r)
    decreases |ds|
  {
    if ds == [] then []
    else
      var rest := Recorded(ds[1..]);
      assert forall d :: d in ds <==> d == ds[0] || d in ds[1..];
      Lists.DistinctTail(ds);
      if Matches(OneDrivePattern, ds[0]) then [ds[0]] + rest else rest
  }

  function JoinAll(root: string, ds: seq<string>): (r: seq<string>)
    ensures |r| == |ds| && forall i :: 0 <= i < |ds| ==> r[i] == Join(root, ds[i])
    decreases |ds|
  {
    if ds == [] then [] else [Join(root, ds[0])] + JoinAll(root, ds[1..])
  }

  /** What the search does at one directory: the subdirectories the walk
      goes on into, and the matches with this directory's finds appended. */
  datatype SearchStep = SearchStep(descend: seq<string>, matches: seq<string>)

  /** One pass of the search loop at `root`, whose subdirectories are `dirnames`. */
  function SearchDirectory(root: string, dirnames: seq<string>, matches: seq<string>): (r: SearchStep)
    requires Lists.Distinct(dirnames)
    // the walk goes into a subdirectory exactly when it is neither excluded nor a OneDrive folder
    ensures forall d :: d in r.descend <==> d in dirnames && d !in Excluded && !ContainsOneDrive(d)
    ensures Lists.Distinct(r.descend)
    // earlier matches are kept
    ensures matches <= r.matches
  {
    var kept := Unexcluded(dirnames);
    var found := Recorded(kept);
    forall d | d in dirnames
      ensures Matches(OneDrivePattern, d) <==> ContainsOneDrive(d)
    {
      OneDriveMatchIff(d);
    }
    SearchStep(Lists.RemoveEach(kept, found), matches + JoinAll(root, found))
  }

  /** The paths a pass records are exactly those of its subdirectories that
      are not excluded and whose names contain `onedrive`. */
  lemma SearchRecords(root: string, dirnames: seq<string>, matches: seq<string>)
    requires Lists.Distinct(dirnames)
    ensures var r := SearchDirectory(root, dirnames, matches);
      && (forall d :: d in dirnames && d !in Excluded && ContainsOneDrive(d) ==> Join(root, d) in r.matches[|matches|..])
      && (forall j :: |matches| <= j < |r.matches| ==>
            exists d :: d in dirnames && d !in Excluded && ContainsOneDrive(d) && r.matches[j] == Join(root, d))
  {
    var r := SearchDirectory(root, dirnames, matches);
    var found := Recorded(Unexcluded(dirnames));
    var joined := JoinAll(root, found);
    assert r.matches == matches + joined;
    assert r.matches[|matches|..] == joined;
    forall d | d in dirnames
      ensures Matches(OneDrivePattern, d) <==> ContainsOneDrive(d)
    {
      OneDriveMatchIff(d);
    }
    forall d | d in dirnames && d !in Excluded && ContainsOneDrive(d)
      ensures Join(root, d) in joined
    {
      var i :| 0 <= i < |found| && found[i] == d;
      assert joined[i] == Join(root, d);
    }
    forall j | |matches| <= j < |r.matches|
      ensures exists d :: d in dirnames && d !in Excluded && ContainsOneDrive(d) && r.matches[j] == Join(root, d)
    {
      var d := found[j - |matches|];
      assert d in found;
      assert r.matches[j] == joined[j - |matches|] == Join(root, d);
    }
  }
}
