/**
  The per-file semantics of `MoveUniqueFiles` as pure functions: one step per
  enumerated file, and the run over a whole file list. The imperative loop in
  module UniqueFileMover is proved to compute exactly `Process`.
 */
module DedupSpec {
  import opened Wrappers
  import opened OrdinalText
  import opened FileHash

  /** One path from `Directory.GetFiles`: its base name (`Path.GetFileName`),
      its bytes, whether `File.OpenRead` and the read of the whole stream
      succeed, and whether `File.Copy` to the destination succeeds. */
  datatype SourceFile = SourceFile(name: string, content: Bytes, readable: bool, copySucceeds: bool)

  /** Which branch of the loop body a file took. */
  datatype Outcome =
    | Copied      // hash new, `File.Copy` succeeded, `moved++`
    | Duplicate   // `seenHashes.Add` returned false, `duplicates++`
    | HashFailed  // `GetFileHash` threw; reported by the catch block
    | CopyFailed  // hash new and inserted, `File.Copy` threw; reported by the catch block

  /** The destination directory: the file system's key of each name in it
      (`DestKey`) to the file's content. */
  type Destination = map<string, Bytes>

  /** How the destination's file system identifies a base name: by the name
      with each character mapped through the file system's upper-case table
      `fsUpper`. On NTFS, whose comparison ignores case, `a.txt` and `A.TXT`
      name one file; on a case-sensitive file system `fsUpper` is the
      identity and every name is its own key. */
  function DestKey(fsUpper: CaseMap, name: string): (key: string)
    ensures |key| == |name|
  {
    MapChars(fsUpper, name)
  }

  /** Two names denote the same destination file exactly when they have the
      same length and agree character by character under `fsUpper`; equal
      names always do. */
  lemma DestKeyMeaning(fsUpper: CaseMap, a: string, b: string)
    ensures DestKey(fsUpper, a) == DestKey(fsUpper, b) <==>
              |a| == |b| && forall k :: 0 <= k < |a| ==> fsUpper(a[k]) == fsUpper(b[k])
  {
    EqualsIgnoreCaseMeaning(fsUpper, a, b);
  }

  /** The loop's state: the `HashSet` (as its case-folded keys), the two
      counters, the destination and the branch each processed file took. */
  datatype RunState = RunState(seen: set<string>, duplicates: nat, moved: nat,
                               dest: Destination, outcomes: seq<Outcome>)

  /** `GetFileHash`: the digest text, or `None` where opening or reading throws. */
  function GetFileHash(f: SourceFile, md5: Hasher): (r: Option<string>)
    ensures r.Some? <==> f.readable
  {
    if f.readable then Some(RenderHash(md5(f.content))) else None
  }

  /** The text `GetFileHash` returns is the lower-case base16 form of the MD5
      digest of the file's bytes: 32 digits, no dash. */
  lemma GetFileHashMeaning(f: SourceFile, md5: Hasher)
    requires f.readable
    ensures GetFileHash(f, md5) == Some(Hex(md5(f.content), false))
    ensures |GetFileHash(f, md5).value| == 32 && '-' !in GetFileHash(f, md5).value
  {
    RenderHashIsLowerHex(md5(f.content));
    RenderHashShape(md5(f.content));
  }

  /** Membership in a `HashSet<string>` built with `StringComparer.OrdinalIgnoreCase`. */
  predicate Contains(seen: set<string>, item: string) {
    FoldCase(item) in seen
  }

  /** `HashSet.Add` under ordinal case-insensitive comparison: whether it added,
      and the set afterwards. */
  function IgnoreCaseAdd(seen: set<string>, item: string): (r: (bool, set<string>))
    ensures r.0 <==> !Contains(seen, item)
    ensures !r.0 ==> r.1 == seen
  {
    var key := FoldCase(item);
    (key !in seen, seen + {key})
  }

  /** After `Add`, the set contains the item and what it contained before,
      and nothing else up to case. */
  lemma IgnoreCaseAddMeaning(seen: set<string>, item: string, x: string)
    ensures var after := IgnoreCaseAdd(seen, item).1;
            Contains(after, x) <==> Contains(seen, x) || EqualsIgnoreCase(UpperAscii, x, item)
  {
  }

  /** The key a file's hash occupies in `seenHashes`. */
  function KeyOf(content: Bytes, md5: Hasher): string {
    FoldCase(RenderHash(md5(content)))
  }

  /** Hash texts are ASCII, so the key a file's hash occupies is the same
      whatever the runtime's case map does beyond ASCII, and two files share
      a key exactly when their digests are equal. */
  lemma KeyOfAnyCaseMap(upper: CaseMap, c1: Bytes, c2: Bytes, md5: Hasher)
    requires AgreesOnAscii(upper)
    ensures MapChars(upper, RenderHash(md5(c1))) == KeyOf(c1, md5)
    ensures KeyOf(c1, md5) == KeyOf(c2, md5) <==> md5(c1) == md5(c2)
  {
    RenderHashShape(md5(c1));
    AsciiFoldIsExact(upper, RenderHash(md5(c1)));
    FoldedHashInjective(UpperAscii, md5(c1), md5(c2));
  }

  /** One iteration of the `foreach` body, exceptions included. */
  function Step(s: RunState, f: SourceFile, md5: Hasher, fsUpper: CaseMap): (t: RunState)
    ensures |t.outcomes| == |s.outcomes| + 1 && t.outcomes[..|s.outcomes|] == s.outcomes
    ensures t.seen == if f.readable then s.seen + {KeyOf(f.content, md5)} else s.seen
    ensures t.dest == (if t.outcomes[|s.outcomes|] == Copied then s.dest[DestKey(fsUpper, f.name) := f.content] else s.dest)
    ensures !f.readable ==> t == s.(outcomes := s.outcomes + [HashFailed])
    ensures t.outcomes[|s.outcomes|] == CopyFailed ==> t.duplicates == s.duplicates && t.moved == s.moved
  {
    match GetFileHash(f, md5)
    case None => s.(outcomes := s.outcomes + [HashFailed])
    case Some(hash) =>
      var (added, seen) := IgnoreCaseAdd(s.seen, hash);
      if !added then
        s.(duplicates := s.duplicates + 1, outcomes := s.outcomes + [Duplicate])
      else if !f.copySucceeds then
        s.(seen := seen, outcomes := s.outcomes + [CopyFailed])
      else
        s.(seen := seen, dest := s.dest[DestKey(fsUpper, f.name) := f.content], moved := s.moved + 1,
           outcomes := s.outcomes + [Copied])
  }

  /** Number of occurrences of `o` in `os`. */
  function Count(os: seq<Outcome>, o: Outcome): (n: nat)
    ensures n <= |os|
  {
    if os == [] then 0
    else Count(os[..|os| - 1], o) + (if os[|os| - 1] == o then 1 else 0)
  }

  /** Files that reached the catch block. */
  function Failures(os: seq<Outcome>): nat {
    Count(os, HashFailed) + Count(os, CopyFailed)
  }

  /** The state after the loop has processed `files` in order, starting with an
      empty set, zero counters and the destination as it was. */
  function Process(files: seq<SourceFile>, md5: Hasher, fsUpper: CaseMap, dest0: Destination): (r: RunState)
    ensures |r.outcomes| == |files|
    decreases |files|
  {
    if files == [] then RunState({}, 0, 0, dest0, [])
    else
      var s := Process(files[..|files| - 1], md5, fsUpper, dest0);
      var t := Step(s, files[|files| - 1], md5, fsUpper);
      assert t.outcomes[..|t.outcomes| - 1] == s.outcomes;
      t
  }

  /** The counters count the duplicate and the copied outcomes. */
  lemma {:induction false} CountersMatchOutcomes(files: seq<SourceFile>, md5: Hasher, fsUpper: CaseMap, dest0: Destination)
    ensures var r := Process(files, md5, fsUpper, dest0);
            r.duplicates == Count(r.outcomes, Duplicate) && r.moved == Count(r.outcomes, Copied)
    decreases |files|
  {
    if files != [] {
      var init := files[..|files| - 1];
      var s := Process(init, md5, fsUpper, dest0);
      var t := Process(files, md5, fsUpper, dest0);
      assert t == Step(s, files[|files| - 1], md5, fsUpper);
      assert t.outcomes[..|t.outcomes| - 1] == s.outcomes;
      CountersMatchOutcomes(init, md5, fsUpper, dest0);
    }
  }

  /** Every outcome is one of the four. */
  lemma {:induction false} CountPartition(os: seq<Outcome>)
    ensures Count(os, Duplicate) + Count(os, Copied) + Failures(os) == |os|
  {
    if os != [] {
      CountPartition(os[..|os| - 1]);
    }
  }

  /** At the end of the loop the duplicates, the copies and the failures add up
      to `total`, so `duplicates + moved <= total`. */
  lemma Totals(files: seq<SourceFile>, md5: Hasher, fsUpper: CaseMap, dest0: Destination)
    ensures var r := Process(files, md5, fsUpper, dest0);
            r.duplicates + r.moved + Failures(r.outcomes) == |files|
            && r.duplicates + r.moved <= |files|
  {
    CountersMatchOutcomes(files, md5, fsUpper, dest0);
    CountPartition(Process(files, md5, fsUpper, dest0).outcomes);
  }

  /** Processing a longer list extends the shorter one's run: the first `k`
      outcomes are those of the first `k` files. */
  lemma {:induction false} OutcomesPrefix(files: seq<SourceFile>, md5: Hasher, fsUpper: CaseMap, dest0: Destination, k: nat)
    requires k <= |files|
    ensures Process(files[..k], md5, fsUpper, dest0).outcomes == Process(files, md5, fsUpper, dest0).outcomes[..k]
    decreases |files|
  {
    if k < |files| {
      var init := files[..|files| - 1];
      var s := Process(init, md5, fsUpper, dest0);
      var t := Process(files, md5, fsUpper, dest0);
      assert t == Step(s, files[|files| - 1], md5, fsUpper);
      assert t.outcomes[..|s.outcomes|] == s.outcomes;
      assert init[..k] == files[..k];
      OutcomesPrefix(init, md5, fsUpper, dest0, k);
      assert t.outcomes[..k] == t.outcomes[..|s.outcomes|][..k];
    } else {
      assert files[..k] == files;
    }
  }

  /** The set of seen hashes only grows as the loop advances. */
  lemma {:induction false} SeenGrows(files: seq<SourceFile>, md5: Hasher, fsUpper: CaseMap, dest0: Destination, i: nat, j: nat)
    requires i <= j <= |files|
    ensures Process(files[..i], md5, fsUpper, dest0).seen <= Process(files[..j], md5, fsUpper, dest0).seen
    decreases j
  {
    if i < j {
      var s := Process(files[..j - 1], md5, fsUpper, dest0);
      StepAt(files, md5, fsUpper, dest0, j - 1);
      assert s.seen <= Step(s, files[j - 1], md5, fsUpper).seen;
      SeenGrows(files, md5, fsUpper, dest0, i, j - 1);
    }
  }

  /** Appending a file to the list appends one step to the run. */
  lemma ProcessSnoc(files: seq<SourceFile>, f: SourceFile, md5: Hasher, fsUpper: CaseMap, dest0: Destination)
    ensures Process(files + [f], md5, fsUpper, dest0) == Step(Process(files, md5, fsUpper, dest0), f, md5, fsUpper)
  {
    assert (files + [f])[..|files|] == files;
  }

  /** The run on the first `k + 1` files is the run on the first `k` followed
      by one step on file `k`. */
  lemma StepAt(files: seq<SourceFile>, md5: Hasher, fsUpper: CaseMap, dest0: Destination, k: nat)
    requires k < |files|
    ensures Process(files[..k + 1], md5, fsUpper, dest0) == Step(Process(files[..k], md5, fsUpper, dest0), files[k], md5, fsUpper)
  {
    assert files[..k + 1][..k] == files[..k];
  }
}
