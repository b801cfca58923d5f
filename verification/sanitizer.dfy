/** The per-directory step of the sanitizing walk.

For each directory the walk visits, the script goes through the file names
and then the subdirectory names of that directory.  For every entry whose
sanitized name differs from its own it logs a `Renaming` record, picks a
free name with the `-Copy` loop, tries the rename, logs an error when the
rename fails, and appends the new name to the walk's pending subdirectory
list when the new name is a directory, so the walk still descends into it.

A directory is modelled as a map from entry name to "is a directory".  The
outcome of `os.rename` is an oracle: one boolean per entry, true when the
rename succeeds.  A name whose decoded form has no character other than a
space makes the script fail with `IndexError`; the visit then stops.
 */
module Sanitizer {
  import Normalizer
  import Collisions
  import Lists

  /** One line of the run's log: the name an entry is renamed to (before the
      collision suffix), or a failed rename in a directory. */
  datatype Record = Renaming(original: string, sanitized: string) | RenameFailed(directory: string)

  /** The state a directory visit works on: the directory's entries (name to
      "is a directory"), the log so far, and the walk's pending subdirectory
      names for this directory. */
  datatype Frame = Frame(entries: map<string, bool>, log: seq<Record>, dirnames: seq<string>)

  /** How a visit ends: all entries handled, or stopped by the crash at `at`. */
  datatype Visit = Completed(frame: Frame) | Crashed(frame: Frame, at: string)

  /** `tmp[:7] != "/Users/"`: true when the folder is not under `/Users/`. */
  function OutsideUserPartition(absPath: string): (r: bool)
    ensures !r <==> |absPath| >= 7 && absPath[..7] == "/Users/"
  {
    (if |absPath| < 7 then absPath else absPath[..7]) != "/Users/"
  }

  /** Handling of one entry `name` of `directory` whose sanitized name is
      `s`; `renamed` is the outcome of the rename, should one be attempted. */
  function Step(directory: string, f: Frame, name: string, s: string, renamed: bool): (g: Frame)
    requires name in f.entries
    // an unchanged name is neither renamed nor logged
    ensures s == name ==> g == f
    // otherwise one Renaming record with the pre-suffix name, plus one error record on failure
    ensures s != name ==>
      g.log == f.log + [Renaming(name, s)] + (if renamed then [] else [RenameFailed(directory)])
    // a successful rename moves the entry to a name that was free
    ensures s != name && renamed ==>
      var t := Collisions.ResolveFree(s, f.entries.Keys);
      && t !in f.entries
      && g.entries.Keys == f.entries.Keys - {name} + {t}
      && g.entries[t] == f.entries[name]
    // a failed rename keeps the original name
    ensures !renamed ==> g.entries == f.entries
    // every other entry is untouched, and no entry is overwritten
    ensures forall k :: k in f.entries && k != name ==> k in g.entries && g.entries[k] == f.entries[k]
    ensures |g.entries| == |f.entries|
    // only a successfully renamed directory is queued for the walk, under its new name
    ensures g.dirnames == f.dirnames +
      (if s != name && renamed && f.entries[name] then [Collisions.ResolveFree(s, f.entries.Keys)] else [])
  {
    if s == name then f
    else
      var target := Collisions.ResolveFree(s, f.entries.Keys);
      var entries := if renamed then (f.entries - {name})[target := f.entries[name]] else f.entries;
      var log := f.log + [Renaming(name, s)] + (if renamed then [] else [RenameFailed(directory)]);
      // `os.path.isdir` of the target, after the rename
      var dirnames := if target in entries && entries[target] then f.dirnames + [target] else f.dirnames;
      assert renamed ==> entries.Keys == f.entries.Keys - {name} + {target};
      Frame(entries, log, dirnames)
  }

  /** `f` applied to each of `names` up to the first name `ok` rejects. */
  function MapWhile(names: seq<string>, ok: string -> bool, f: string -> string): (r: seq<string>)
    ensures |r| <= |names|
    ensures forall i :: 0 <= i < |r| ==> ok(names[i]) && r[i] == f(names[i])
    ensures |r| < |names| ==> !ok(names[|r|])
    decreases |names|
  {
    if names == [] || !ok(names[0]) then []
    else
      var rest := MapWhile(names[1..], ok, f);
      assert forall i :: 1 <= i < |rest| + 1 ==> names[1..][i - 1] == names[i];
      [f(names[0])] + rest
  }

  /** The sanitized names of `names`, up to the first name the pipeline
      cannot handle. */
  function SanitizedPrefix(names: seq<string>, cfg: Normalizer.Config): (r: seq<string>)
    ensures |r| <= |names|
    ensures forall i :: 0 <= i < |r| ==> Normalizer.Sanitizable(names[i], cfg)
    ensures |r| < |names| ==> !Normalizer.Sanitizable(names[|r|], cfg)
    ensures forall i :: 0 <= i < |r| ==> r[i] == Normalizer.Sanitize(names[i], cfg)
  {
    MapWhile(names, n => Normalizer.Sanitizable(n, cfg),
             n => if Normalizer.Sanitizable(n, cfg) then Normalizer.Sanitize(n, cfg) else n)
  }

  /** The loop over the entries of a directory, given the sanitized name of
      each entry it reaches; it stops at the first entry with none. */
  function Walk(directory: string, f: Frame, names: seq<string>, sanitized: seq<string>, renamed: seq<bool>): (v: Visit)
    requires |sanitized| <= |names| == |renamed|
    requires Lists.Distinct(names)
    requires forall i :: 0 <= i < |names| ==> names[i] in f.entries
    ensures v.Crashed? <==> |sanitized| < |names|
    ensures v.Crashed? ==> v.at == names[|sanitized|]
    decreases |sanitized|
  {
    if sanitized == [] then (if names == [] then Completed(f) else Crashed(f, names[0]))
    else
      var g := Step(directory, f, names[0], sanitized[0], renamed[0]);
      TailFacts(f, g, names);
      Walk(directory, g, names[1..], sanitized[1..], renamed[1..])
  }

  /** The rest of the entries are still distinct entries of the directory
      after the first is handled. */
  lemma TailFacts(f: Frame, g: Frame, names: seq<string>)
    requires names != [] && Lists.Distinct(names)
    requires forall i :: 0 <= i < |names| ==> names[i] in f.entries
    requires forall k :: k in f.entries && k != names[0] ==> k in g.entries && g.entries[k] == f.entries[k]
    ensures Lists.Distinct(names[1..])
    ensures forall i :: 0 <= i < |names[1..]| ==> names[1..][i] in g.entries
    ensures forall k :: k in names[1..] ==> k in names && k != names[0]
  {
    Lists.DistinctTail(names);
  }

  /** `for name in filenames + dirnames`, with one rename outcome per entry:
      the visit stops at the first entry the pipeline cannot handle. */
  function VisitEntries(directory: string, cfg: Normalizer.Config, f: Frame, names: seq<string>, renamed: seq<bool>): (v: Visit)
    requires |renamed| == |names|
    requires Lists.Distinct(names)
    requires forall i :: 0 <= i < |names| ==> names[i] in f.entries
    // the visit crashes exactly when some entry cannot be sanitized, and at such an entry
    ensures v.Crashed? <==> exists i :: 0 <= i < |names| && !Normalizer.Sanitizable(names[i], cfg)
    // and it crashes at the first such entry, after handling every earlier one
    ensures v.Crashed? ==>
      exists j :: 0 <= j < |names| && v.at == names[j] && !Normalizer.Sanitizable(names[j], cfg)
        && forall k :: 0 <= k < j ==> Normalizer.Sanitizable(names[k], cfg)
  {
    var sanitized := SanitizedPrefix(names, cfg);
    var v := Walk(directory, f, names, sanitized, renamed);
    if |sanitized| < |names| then
      assert names[|sanitized|] in names;
      v
    else
      assert forall i :: 0 <= i < |names| ==> Normalizer.Sanitizable(names[i], cfg);
      v
  }

  /** No entry is lost or overwritten by a walk, and entries the walk does
      not reach keep their kind. */
  lemma {:induction false} WalkKeepsEntries(directory: string, f: Frame, names: seq<string>, sanitized: seq<string>, renamed: seq<bool>)
    requires |sanitized| <= |names| == |renamed|
    requires Lists.Distinct(names)
    requires forall i :: 0 <= i < |names| ==> names[i] in f.entries
    ensures var v := Walk(directory, f, names, sanitized, renamed);
      && |v.frame.entries| == |f.entries|
      && forall k :: k in f.entries && k !in names ==> k in v.frame.entries && v.frame.entries[k] == f.entries[k]
    decreases |sanitized|
  {
    if sanitized != [] {
      var g := Step(directory, f, names[0], sanitized[0], renamed[0]);
      TailFacts(f, g, names);
      WalkKeepsEntries(directory, g, names[1..], sanitized[1..], renamed[1..]);
    }
  }

  /** A walk only appends to the log and to the pending subdirectory list. */
  lemma {:induction false} WalkAppends(directory: string, f: Frame, names: seq<string>, sanitized: seq<string>, renamed: seq<bool>)
    requires |sanitized| <= |names| == |renamed|
    requires Lists.Distinct(names)
    requires forall i :: 0 <= i < |names| ==> names[i] in f.entries
    ensures var v := Walk(directory, f, names, sanitized, renamed);
      f.log <= v.frame.log && f.dirnames <= v.frame.dirnames
    decreases |sanitized|
  {
    if sanitized != [] {
      var g := Step(directory, f, names[0], sanitized[0], renamed[0]);
      TailFacts(f, g, names);
      assert f.log <= g.log && f.dirnames <= g.dirnames;
      WalkAppends(directory, g, names[1..], sanitized[1..], renamed[1..]);
    }
  }

  /** Every name a walk queues is a directory when the walk ends, under a
      name that was free before the walk or that the walk itself vacated. */
  lemma {:induction false} WalkQueuesDirectories(directory: string, f: Frame, names: seq<string>, sanitized: seq<string>, renamed: seq<bool>)
    requires |sanitized| <= |names| == |renamed|
    requires Lists.Distinct(names)
    requires forall i :: 0 <= i < |names| ==> names[i] in f.entries
    ensures var v := Walk(directory, f, names, sanitized, renamed);
      forall i :: |f.dirnames| <= i < |v.frame.dirnames| ==>
        && (v.frame.dirnames[i] !in f.entries || v.frame.dirnames[i] in names)
        && v.frame.dirnames[i] in v.frame.entries
        && v.frame.entries[v.frame.dirnames[i]]
    decreases |sanitized|
  {
    if sanitized != [] {
      var g := Step(directory, f, names[0], sanitized[0], renamed[0]);
      TailFacts(f, g, names);
      WalkAppends(directory, g, names[1..], sanitized[1..], renamed[1..]);
      WalkQueuesDirectories(directory, g, names[1..], sanitized[1..], renamed[1..]);
      WalkKeepsEntries(directory, g, names[1..], sanitized[1..], renamed[1..]);
      var v := Walk(directory, g, names[1..], sanitized[1..], renamed[1..]);
      forall i | |f.dirnames| <= i < |v.frame.dirnames|
        ensures v.frame.dirnames[i] !in f.entries || v.frame.dirnames[i] in names
        ensures v.frame.dirnames[i] in v.frame.entries && v.frame.entries[v.frame.dirnames[i]]
      {
        if i < |g.dirnames| {
          assert v.frame.dirnames[i] == g.dirnames[i];
          assert v.frame.dirnames[i] !in names[1..];
        } else {
          assert v.frame.dirnames[i] in names[1..] ==> v.frame.dirnames[i] in names;
        }
      }
    }
  }

  /** What a directory visit guarantees: no entry is lost or overwritten,
      entries outside the visited names are untouched, the log and the
      pending list only grow, and every queued name is a directory that
      exists when the visit ends, under a fresh or vacated name. */
  lemma VisitFacts(directory: string, cfg: Normalizer.Config, f: Frame, names: seq<string>, renamed: seq<bool>)
    requires |renamed| == |names|
    requires Lists.Distinct(names)
    requires forall i :: 0 <= i < |names| ==> names[i] in f.entries
    ensures var v := VisitEntries(directory, cfg, f, names, renamed);
      && |v.frame.entries| == |f.entries|
      && (forall k :: k in f.entries && k !in names ==> k in v.frame.entries && v.frame.entries[k] == f.entries[k])
      && f.log <= v.frame.log && f.dirnames <= v.frame.dirnames
      && forall i :: |f.dirnames| <= i < |v.frame.dirnames| ==>
           && (v.frame.dirnames[i] !in f.entries || v.frame.dirnames[i] in names)
           && v.frame.dirnames[i] in v.frame.entries
           && v.frame.entries[v.frame.dirnames[i]]
  {
    var sanitized := SanitizedPrefix(names, cfg);
    WalkKeepsEntries(directory, f, names, sanitized, renamed);
    WalkAppends(directory, f, names, sanitized, renamed);
    WalkQueuesDirectories(directory, f, names, sanitized, renamed);
  }

  /** One directory of the walk: its file names, then its subdirectory
      names, with the walk's subdirectory list as the pending list. */
  function SanitizeDirectory(directory: string, cfg: Normalizer.Config, entries: map<string, bool>,
                             log: seq<Record>, filenames: seq<string>, dirnames: seq<string>,
                             renamed: seq<bool>): (v: Visit)
    requires |renamed| == |filenames| + |dirnames|
    requires Lists.Distinct(filenames + dirnames)
    requires forall i :: 0 <= i < |filenames + dirnames| ==> (filenames + dirnames)[i] in entries
    // every subdirectory listed before the visit stays in the pending list
    ensures dirnames <= v.frame.dirnames
    ensures log <= v.frame.log
    // the visit crashes exactly when a file or subdirectory name cannot be
    // sanitized, at the first such name
    ensures v.Crashed? <==> exists i :: 0 <= i < |filenames + dirnames| && !Normalizer.Sanitizable((filenames + dirnames)[i], cfg)
    ensures v.Crashed? ==>
      exists j :: 0 <= j < |filenames + dirnames| && v.at == (filenames + dirnames)[j]
        && !Normalizer.Sanitizable((filenames + dirnames)[j], cfg)
        && forall k :: 0 <= k < j ==> Normalizer.Sanitizable((filenames + dirnames)[k], cfg)
  {
    VisitFacts(directory, cfg, Frame(entries, log, dirnames), filenames + dirnames, renamed);
    VisitEntries(directory, cfg, Frame(entries, log, dirnames), filenames + dirnames, renamed)
  }
}
