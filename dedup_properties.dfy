/**
  What `MoveUniqueFiles` promises about a whole run: which file of a group of
  equal contents is copied, what a failure changes and what it does not, and
  what the destination holds at the end.
 */
module DedupProperties {
  import opened Wrappers
  import opened OrdinalText
  import opened FileHash
  import opened DedupSpec

  /** Some readable file before position `k` has the same MD5 digest as file `k`. */
  predicate EarlierTwin(files: seq<SourceFile>, md5: Hasher, k: nat)
    requires k < |files|
  {
    exists j :: 0 <= j < k && files[j].readable && md5(files[j].content) == md5(files[k].content)
  }

  /** The keys of the files that could be read, in any order. */
  function ReadableKeys(files: seq<SourceFile>, md5: Hasher): (keys: set<string>)
    ensures forall key :: key in keys ==>
              exists j :: 0 <= j < |files| && files[j].readable && KeyOf(files[j].content, md5) == key
  {
    if files == [] then {}
    else
      var n := |files| - 1;
      var init := ReadableKeys(files[..n], md5);
      assert forall j :: 0 <= j < n ==> files[..n][j] == files[j];
      init + if files[n].readable then {KeyOf(files[n].content, md5)} else {}
  }

  /** Every readable file's key is among the readable keys. */
  lemma {:induction false} ReadableKeysComplete(files: seq<SourceFile>, md5: Hasher, j: nat)
    requires j < |files| && files[j].readable
    ensures KeyOf(files[j].content, md5) in ReadableKeys(files, md5)
    decreases |files|
  {
    var n := |files| - 1;
    if j < n {
      assert files[..n][j] == files[j];
      ReadableKeysComplete(files[..n], md5, j);
    }
  }

  /** `seenHashes` holds exactly the keys of the files that could be read,
      whether or not their copy then succeeded. */
  lemma {:induction false} SeenMeaning(files: seq<SourceFile>, md5: Hasher, fsUpper: CaseMap, dest0: Destination)
    ensures Process(files, md5, fsUpper, dest0).seen == ReadableKeys(files, md5)
    decreases |files|
  {
    if files != [] {
      var n := |files| - 1;
      assert files == files[..n] + [files[n]];
      ProcessSnoc(files[..n], files[n], md5, fsUpper, dest0);
      SeenMeaning(files[..n], md5, fsUpper, dest0);
    }
  }

  /** Whether file `k`'s hash is already in the set depends only on the
      earlier readable files' digests. */
  lemma SeenBefore(files: seq<SourceFile>, md5: Hasher, fsUpper: CaseMap, dest0: Destination, k: nat)
    requires k < |files|
    ensures KeyOf(files[k].content, md5) in Process(files[..k], md5, fsUpper, dest0).seen <==> EarlierTwin(files, md5, k)
  {
    var prefix := files[..k];
    var key := KeyOf(files[k].content, md5);
    SeenMeaning(prefix, md5, fsUpper, dest0);
    if key in ReadableKeys(prefix, md5) {
      var j :| 0 <= j < k && prefix[j].readable && KeyOf(prefix[j].content, md5) == key;
      FoldedHashInjective(UpperAscii, md5(files[j].content), md5(files[k].content));
    }
    if EarlierTwin(files, md5, k) {
      var j :| 0 <= j < k && files[j].readable && md5(files[j].content) == md5(files[k].content);
      assert prefix[j] == files[j];
      ReadableKeysComplete(prefix, md5, j);
    }
  }

  /** The outcome of file `k` is the outcome of one step on the state the
      first `k` files left. */
  lemma OutcomeAt(files: seq<SourceFile>, md5: Hasher, fsUpper: CaseMap, dest0: Destination, k: nat)
    requires k < |files|
    ensures var s := Process(files[..k], md5, fsUpper, dest0);
            var o := Process(files, md5, fsUpper, dest0).outcomes[k];
            && (o == HashFailed <==> !files[k].readable)
            && (o == Duplicate <==> files[k].readable && KeyOf(files[k].content, md5) in s.seen)
            && (o == Copied <==> files[k].readable && KeyOf(files[k].content, md5) !in s.seen && files[k].copySucceeds)
            && (o == CopyFailed <==> files[k].readable && KeyOf(files[k].content, md5) !in s.seen && !files[k].copySucceeds)
  {
    OutcomesPrefix(files, md5, fsUpper, dest0, k + 1);
    StepAt(files, md5, fsUpper, dest0, k);
  }

  /** The branch file `k` takes: a failed read is a hash failure; otherwise it
      is a duplicate exactly when an earlier readable file has the same
      digest, and else it is copied or its copy fails. */
  lemma Classification(files: seq<SourceFile>, md5: Hasher, fsUpper: CaseMap, dest0: Destination, k: nat)
    requires k < |files|
    ensures var o := Process(files, md5, fsUpper, dest0).outcomes[k];
            && (o == HashFailed <==> !files[k].readable)
            && (o == Duplicate <==> files[k].readable && EarlierTwin(files, md5, k))
            && (o == Copied <==> files[k].readable && !EarlierTwin(files, md5, k) && files[k].copySucceeds)
            && (o == CopyFailed <==> files[k].readable && !EarlierTwin(files, md5, k) && !files[k].copySucceeds)
  {
    OutcomeAt(files, md5, fsUpper, dest0, k);
    SeenBefore(files, md5, fsUpper, dest0, k);
  }

  /** Of two readable files with equal content, the later one is a duplicate;
      the first readable file of its content is never one. */
  lemma FirstSeenWins(files: seq<SourceFile>, md5: Hasher, fsUpper: CaseMap, dest0: Destination, j: nat, k: nat)
    requires j < k < |files|
    requires files[j].readable && files[k].readable && files[j].content == files[k].content
    ensures Process(files, md5, fsUpper, dest0).outcomes[k] == Duplicate
    ensures !EarlierTwin(files, md5, j) ==> Process(files, md5, fsUpper, dest0).outcomes[j] in {Copied, CopyFailed}
  {
    Classification(files, md5, fsUpper, dest0, j);
    Classification(files, md5, fsUpper, dest0, k);
  }

  /** Each digest causes at most one copy attempt per run. */
  lemma AtMostOneCopyAttempt(files: seq<SourceFile>, md5: Hasher, fsUpper: CaseMap, dest0: Destination, i: nat, j: nat)
    requires i < j < |files|
    requires Process(files, md5, fsUpper, dest0).outcomes[i] in {Copied, CopyFailed}
    requires Process(files, md5, fsUpper, dest0).outcomes[j] in {Copied, CopyFailed}
    ensures md5(files[i].content) != md5(files[j].content)
  {
    Classification(files, md5, fsUpper, dest0, i);
    Classification(files, md5, fsUpper, dest0, j);
  }

  /** A copy that fails after `Add` leaves the hash in the set: every later
      readable file with that digest is a duplicate, so no file with that
      content reaches the destination in this run. */
  lemma CopyFailureQuirk(files: seq<SourceFile>, md5: Hasher, fsUpper: CaseMap, dest0: Destination, j: nat)
    requires j < |files|
    requires Process(files, md5, fsUpper, dest0).outcomes[j] == CopyFailed
    ensures forall k :: j < k < |files| && files[k].readable && md5(files[k].content) == md5(files[j].content)
                        ==> Process(files, md5, fsUpper, dest0).outcomes[k] == Duplicate
    ensures forall k :: 0 <= k < |files| && md5(files[k].content) == md5(files[j].content)
                        ==> Process(files, md5, fsUpper, dest0).outcomes[k] != Copied
  {
    Classification(files, md5, fsUpper, dest0, j);
    forall k | 0 <= k < |files| && md5(files[k].content) == md5(files[j].content)
      ensures (j < k && files[k].readable ==> Process(files, md5, fsUpper, dest0).outcomes[k] == Duplicate)
      ensures Process(files, md5, fsUpper, dest0).outcomes[k] != Copied
    {
      Classification(files, md5, fsUpper, dest0, k);
    }
  }

  /** The position of the last file copied to the destination file that
      `name` denotes, if any. */
  function LastCopy(files: seq<SourceFile>, outcomes: seq<Outcome>, fsUpper: CaseMap, name: string): (r: Option<nat>)
    requires |outcomes| == |files|
    ensures r.Some? ==> r.value < |files| && outcomes[r.value] == Copied
                        && DestKey(fsUpper, files[r.value].name) == DestKey(fsUpper, name)
    ensures r.Some? ==> forall k :: r.value < k < |files| ==>
                          !(outcomes[k] == Copied && DestKey(fsUpper, files[k].name) == DestKey(fsUpper, name))
    ensures r.None? ==> forall k :: 0 <= k < |files| ==>
                          !(outcomes[k] == Copied && DestKey(fsUpper, files[k].name) == DestKey(fsUpper, name))
  {
    if files == [] then None
    else
      var n := |files| - 1;
      if outcomes[n] == Copied && DestKey(fsUpper, files[n].name) == DestKey(fsUpper, name) then Some(n)
      else LastCopy(files[..n], outcomes[..n], fsUpper, name)
  }

  /** The content of the destination file `name` denotes, if there is one. */
  function Lookup(m: Destination, fsUpper: CaseMap, name: string): Option<Bytes> {
    var key := DestKey(fsUpper, name);
    if key in m then Some(m[key]) else None
  }

  /** Last write wins: at the end, the destination file `name` denotes holds
      the content of the last file copied to it, under whatever spelling of
      the name, and files no copy touched are as they were before the run. */
  lemma {:induction false} DestinationIsLastCopy(files: seq<SourceFile>, md5: Hasher, fsUpper: CaseMap,
                                                 dest0: Destination, name: string)
    ensures var r := Process(files, md5, fsUpper, dest0);
            Lookup(r.dest, fsUpper, name) == match LastCopy(files, r.outcomes, fsUpper, name)
                                             case Some(k) => Some(files[k].content)
                                             case None => Lookup(dest0, fsUpper, name)
    decreases |files|
  {
    if files != [] {
      var n := |files| - 1;
      var init := files[..n];
      var s := Process(init, md5, fsUpper, dest0);
      var t := Process(files, md5, fsUpper, dest0);
      assert t == Step(s, files[n], md5, fsUpper);
      assert t.outcomes[..n] == s.outcomes;
      DestinationIsLastCopy(init, md5, fsUpper, dest0, name);
    }
  }

  /** On a file system that ignores ASCII case, copying `A.txt` and then
      `a.txt` with different digests writes one destination file twice: it
      ends up holding the second content, under either spelling. */
  lemma CaseVariantNamesShareOneFile(x: Bytes, y: Bytes, md5: Hasher, fsUpper: CaseMap, dest0: Destination)
    requires AgreesOnAscii(fsUpper) && md5(x) != md5(y)
    ensures var r := Process([SourceFile("A.txt", x, true, true), SourceFile("a.txt", y, true, true)],
                             md5, fsUpper, dest0);
            && r.outcomes == [Copied, Copied]
            && Lookup(r.dest, fsUpper, "A.txt") == Some(y)
            && Lookup(r.dest, fsUpper, "a.txt") == Some(y)
  {
    var files := [SourceFile("A.txt", x, true, true), SourceFile("a.txt", y, true, true)];
    var r := Process(files, md5, fsUpper, dest0);
    assert IsAscii('a') && IsAscii('.') && IsAscii('t') && IsAscii('x');
    assert DestKey(fsUpper, "A.txt") == DestKey(fsUpper, "a.txt");
    Classification(files, md5, fsUpper, dest0, 0);
    Classification(files, md5, fsUpper, dest0, 1);
    assert !EarlierTwin(files, md5, 1);
    assert r.outcomes == [Copied, Copied];
    DestinationIsLastCopy(files, md5, fsUpper, dest0, "A.txt");
    DestinationIsLastCopy(files, md5, fsUpper, dest0, "a.txt");
  }

  /** `Step` looks only at the set, the counters and the destination: two
      states that differ only by one hash failure inserted at position `k`
      in the history still differ only by that after one more step. */
  lemma StepKeepsInsertedFailure(px: RunState, py: RunState, f: SourceFile, md5: Hasher, fsUpper: CaseMap, k: nat)
    requires k <= |py.outcomes|
    requires px == py.(outcomes := py.outcomes[..k] + [HashFailed] + py.outcomes[k..])
    ensures var t := Step(py, f, md5, fsUpper);
            Step(px, f, md5, fsUpper) == t.(outcomes := t.outcomes[..k] + [HashFailed] + t.outcomes[k..])
  {
    var t := Step(py, f, md5, fsUpper);
    var o := t.outcomes[|py.outcomes|];
    assert px.seen == py.seen && px.duplicates == py.duplicates && px.moved == py.moved && px.dest == py.dest;
    assert t.outcomes == py.outcomes + [o];
    assert t.outcomes[..k] == py.outcomes[..k];
    assert t.outcomes[k..] == py.outcomes[k..] + [o];
  }

  /** An unreadable file at the end of the run adds one hash failure and
      changes nothing else. */
  lemma UnreadableLastFile(a: seq<SourceFile>, u: SourceFile, md5: Hasher, fsUpper: CaseMap, dest0: Destination)
    requires !u.readable
    ensures var r := Process(a, md5, fsUpper, dest0);
            Process(a + [u], md5, fsUpper, dest0) == r.(outcomes := r.outcomes[..|a|] + [HashFailed] + r.outcomes[|a|..])
  {
    ProcessSnoc(a, u, md5, fsUpper, dest0);
    var r := Process(a, md5, fsUpper, dest0);
    assert r.outcomes[..|a|] + [HashFailed] + r.outcomes[|a|..] == r.outcomes + [HashFailed];
  }

  /** Failure isolation: a file that cannot be read changes nothing but the
      error report. The run with it is the run without it, plus one hash
      failure at its position. */
  lemma {:induction false} UnreadableFileIsIsolated(a: seq<SourceFile>, u: SourceFile, b: seq<SourceFile>,
                                                     md5: Hasher, fsUpper: CaseMap, dest0: Destination)
    requires !u.readable
    ensures var r2 := Process(a + b, md5, fsUpper, dest0);
            Process(a + [u] + b, md5, fsUpper, dest0)
              == r2.(outcomes := r2.outcomes[..|a|] + [HashFailed] + r2.outcomes[|a|..])
    decreases |b|
  {
    if b == [] {
      assert a + [u] + b == a + [u];
      assert a + b == a;
      UnreadableLastFile(a, u, md5, fsUpper, dest0);
    } else {
      var n := |b| - 1;
      var x, y, last := a + [u] + b[..n], a + b[..n], b[n];
      assert a + [u] + b == x + [last];
      assert a + b == y + [last];
      ProcessSnoc(x, last, md5, fsUpper, dest0);
      ProcessSnoc(y, last, md5, fsUpper, dest0);
      UnreadableFileIsIsolated(a, u, b[..n], md5, fsUpper, dest0);
      var t := Step(Process(y, md5, fsUpper, dest0), last, md5, fsUpper);
      StepKeepsInsertedFailure(Process(x, md5, fsUpper, dest0), Process(y, md5, fsUpper, dest0), last, md5, fsUpper, |a|);
      assert Process(a + b, md5, fsUpper, dest0) == t;
      assert Process(a + [u] + b, md5, fsUpper, dest0) == t.(outcomes := t.outcomes[..|a|] + [HashFailed] + t.outcomes[|a|..]);
    }
  }
}
