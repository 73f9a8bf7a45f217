/** doMap, doReduce, merge and Sequential of distributed-systems/mapreduce. */
module MapReduce {
  import opened Basics
  import opened KeyOrder
  import opened MapReduceSpec
  import opened JobFiles

  type Files = map<Name, seq<KeyValue>>

  /** The content each file of the job is specified to have. */
  function Content(job: Job, name: Name): seq<KeyValue>
    requires job.nReduce >= 1
    requires name.Inter? ==> name.m < |job.inputs|
  {
    match name
    case Inter(m, r) => Part(job, Mapped(job, m), r)
    case Res(r) => Result(job, r)
    case Output => Answer(job)
  }

  /** Everything found in the first n intermediate files of reduce task r. */
  function Gathered(files: Files, n: nat, r: nat): seq<KeyValue>
    requires forall m :: 0 <= m < n ==> Inter(m, r) in files
  {
    if n == 0 then [] else Gathered(files, n - 1, r) + files[Inter(n - 1, r)]
  }

  /** The map merge builds from the first n result files. */
  function MergedFiles(files: Files, n: nat): map<string, string>
    requires forall r :: 0 <= r < n ==> Res(r) in files
  {
    if n == 0 then map[] else Enter(files[Res(n - 1)], MergedFiles(files, n - 1))
  }

  /** The files after map task m has written its first n partitions. */
  function WithParts(files: Files, job: Job, m: nat, n: nat): Files
    requires job.nReduce >= 1 && m < |job.inputs|
  {
    if n == 0 then files else WithParts(files, job, m, n - 1)[Inter(m, n - 1) := Part(job, Mapped(job, m), n - 1)]
  }

  lemma {:induction false} WithPartsLookup(files: Files, job: Job, m: nat, n: nat, name: Name)
    requires job.nReduce >= 1 && m < |job.inputs|
    ensures var own := name.Inter? && name.m == m && name.r < n;
      && (name in WithParts(files, job, m, n) <==> name in files || own)
      && (own ==> WithParts(files, job, m, n)[name] == Part(job, Mapped(job, m), name.r))
      && (!own && name in files ==> WithParts(files, job, m, n)[name] == files[name])
  {
    if n > 0 {
      WithPartsLookup(files, job, m, n - 1, name);
    }
  }

  lemma WithPartsAll(files: Files, job: Job, m: nat, after: Files)
    requires job.nReduce >= 1 && m < |job.inputs| && after == WithParts(files, job, m, job.nReduce)
    ensures forall r :: 0 <= r < job.nReduce ==> Inter(m, r) in after && after[Inter(m, r)] == Content(job, Inter(m, r))
    ensures forall n: Name :: !(n.Inter? && n.m == m && n.r < job.nReduce) ==>
      (n in after <==> n in files) && (n in after ==> after[n] == files[n])
  {
    forall r | 0 <= r < job.nReduce ensures Inter(m, r) in after && after[Inter(m, r)] == Content(job, Inter(m, r)) {
      WithPartsLookup(files, job, m, job.nReduce, Inter(m, r));
    }
    forall n: Name | !(n.Inter? && n.m == m && n.r < job.nReduce)
      ensures (n in after <==> n in files) && (n in after ==> after[n] == files[n])
    {
      WithPartsLookup(files, job, m, job.nReduce, n);
    }
  }

  /** keyValues holds the values of every key of kvs, in order. */
  ghost predicate Grouped(keyValues: map<string, seq<string>>, kvs: seq<KeyValue>) {
    forall k :: (k in keyValues <==> k in Keys(kvs)) && (k in keyValues ==> keyValues[k] == ValuesOf(k, kvs))
  }

  lemma {:induction false} NoValues(k: string, kvs: seq<KeyValue>)
    requires k !in Keys(kvs)
    ensures ValuesOf(k, kvs) == []
    decreases |kvs|
  {
    if kvs != [] {
      var init := kvs[..|kvs| - 1];
      assert Keys(kvs) == Keys(init) + [kvs[|kvs| - 1].key];
      assert Keys(kvs)[|kvs| - 1] in Keys(kvs);
      NoValues(k, init);
    }
  }

  lemma GroupedNone(keyValues: map<string, seq<string>>)
    requires keyValues == map[]
    ensures Grouped(keyValues, [])
  {
  }

  /** Appending one value to its key's slice. */
  lemma GroupedStep(keyValues: map<string, seq<string>>, kvs: seq<KeyValue>, kv: KeyValue)
    requires Grouped(keyValues, kvs)
    ensures Grouped(keyValues[kv.key := (if kv.key in keyValues then keyValues[kv.key] else []) + [kv.value]], kvs + [kv])
  {
    assert (kvs + [kv])[..|kvs + [kv]| - 1] == kvs;
    if kv.key !in keyValues { NoValues(kv.key, kvs); }
  }

  /** Some key of a nonempty key set; Go iterates over a map in any order. */
  method AnyKey<T(==)>(keys: set<T>) returns (k: T)
    requires keys != {}
    ensures k in keys
  {
    k :| k in keys;
  }

  /** The keys of a map in any order, then sorted (common_reduce.go:61-64,
      master_splitmerge.go:35-39). */
  method SortedKeys(all: set<string>) returns (keys: seq<string>)
    ensures Ascending(keys) && forall k :: k in keys <==> k in all
  {
    var unsorted, rest: set<string> := [], all;
    while rest != {}
      invariant rest <= all && forall k :: k in unsorted <==> k in all - rest
      decreases rest
    {
      var k := AnyKey(rest);
      unsorted, rest := unsorted + [k], rest - {k};
    }
    SortAscending(unsorted);
    keys := Sort(unsorted);
  }

  /** The inner loop of doMap, common_map.go:58-65: the pairs encoded into file r. */
  method Encode(job: Job, keyValues: seq<KeyValue>, r: nat) returns (content: seq<KeyValue>)
    requires job.nReduce >= 1
    ensures content == Part(job, keyValues, r)
  {
    content := [];
    for i := 0 to |keyValues|
      invariant content == Part(job, keyValues[..i], r)
    {
      assert keyValues[..i + 1][..i] == keyValues[..i];
      if job.ihash(keyValues[i].key) % job.nReduce == r {
        content := content + [keyValues[i]];
      }
    }
    assert keyValues[..|keyValues|] == keyValues;
  }

  /** The decoding loop of doReduce, common_reduce.go:49-56: values appended per key. */
  method Decode(content: seq<KeyValue>, keyValues: map<string, seq<string>>, ghost seen: seq<KeyValue>)
    returns (grouped: map<string, seq<string>>)
    requires Grouped(keyValues, seen)
    ensures Grouped(grouped, seen + content)
  {
    grouped := keyValues;
    assert seen + content[..0] == seen;
    for i := 0 to |content|
      invariant Grouped(grouped, seen + content[..i])
    {
      var kv := content[i];
      GroupedStep(grouped, seen + content[..i], kv);
      assert seen + content[..i + 1] == seen + content[..i] + [kv];
      grouped := grouped[kv.key := (if kv.key in grouped then grouped[kv.key] else []) + [kv.value]];
    }
    assert content[..|content|] == content;
  }

  /** The tail of doReduce, common_reduce.go:59-73: one reduced pair per sorted key. */
  method ReduceKeys(keyValues: map<string, seq<string>>, reduceF: (string, seq<string>) -> string, ghost seen: seq<KeyValue>)
    returns (merged: seq<KeyValue>)
    requires Grouped(keyValues, seen)
    ensures merged == GroupBy(seen, reduceF)
  {
    var keys := SortedKeys(keyValues.Keys);
    merged := [];
    for i := 0 to |keys|
      invariant |merged| == i
      invariant forall j :: 0 <= j < i ==> merged[j] == KeyValue(keys[j], reduceF(keys[j], ValuesOf(keys[j], seen)))
    {
      assert keys[i] in keys;
      merged := merged + [KeyValue(keys[i], reduceF(keys[i], keyValues[keys[i]]))];
    }
    assert Keys(merged) == keys;
    GroupingUnique(merged, seen, reduceF);
  }

  /** The decoding loop of merge, master_splitmerge.go:25-32. */
  method EnterFile(content: seq<KeyValue>, into: map<string, string>) returns (kvs: map<string, string>)
    ensures kvs == Enter(content, into)
  {
    kvs := into;
    for j := 0 to |content|
      invariant kvs == Enter(content[..j], into)
    {
      assert content[..j + 1][..j] == content[..j];
      kvs := kvs[content[j].key := content[j].value];
    }
    assert content[..|content|] == content;
  }

  /** The writing loop of merge, master_splitmerge.go:46-48. */
  method WriteLines(keys: seq<string>, kvs: map<string, string>) returns (text: string, ghost cuts: seq<nat>)
    requires forall k :: k in keys ==> k in kvs
    ensures text == Text(Listed(keys, kvs)) && Lines(text, Listed(keys, kvs), cuts)
  {
    hide Lines;
    text := "";
    ghost var listed := Listed(keys, kvs);
    cuts := TextLines(listed);
    for i := 0 to |keys|
      invariant text == Text(listed[..i])
    {
      assert keys[i] in keys;
      assert listed[..i + 1][..i] == listed[..i];
      text := text + keys[i] + ": " + kvs[keys[i]] + "\n";
    }
    assert listed[..|keys|] == listed;
  }

  /** The shared file system. */
  class SharedFiles {
    var files: Files
    var output: Option<string>

    constructor ()
      ensures files == map[] && output == None
    {
      files, output := map[], None;
    }

    /** doMap, common_map.go:14-68. */
    method DoMap(job: Job, m: nat)
      requires job.nReduce >= 1 && m < |job.inputs|
      modifies this`files
      ensures forall r :: 0 <= r < job.nReduce ==> Inter(m, r) in files && files[Inter(m, r)] == Content(job, Inter(m, r))
      ensures forall r :: 0 <= r < job.nReduce ==>
        Inter(m, r) in files && files[Inter(m, r)] == Part(job, job.mapF(job.inputs[m].name, job.inputs[m].contents), r)
      ensures forall n: Name :: !(n.Inter? && n.m == m && n.r < job.nReduce) ==>
        (n in files <==> n in old(files)) && (n in files ==> files[n] == old(files)[n])
    {
      var keyValues := job.mapF(job.inputs[m].name, job.inputs[m].contents);
      for r := 0 to job.nReduce
        invariant files == WithParts(old(files), job, m, r)
      {
        var content := Encode(job, keyValues, r);
        files := files[Inter(m, r) := content];
      }
      WithPartsAll(old(files), job, m, files);
    }

    /** doReduce, common_reduce.go:14-75.  A missing intermediate file kills the worker. */
    method DoReduce(job: Job, r: nat, nMap: nat) returns (ok: bool)
      modifies this`files
      ensures ok <==> forall m :: 0 <= m < nMap ==> Inter(m, r) in old(files)
      ensures !ok ==> files == old(files)
      ensures ok ==> files == old(files)[Res(r) := GroupBy(Gathered(old(files), nMap, r), job.reduceF)]
    {
      hide GroupBy, Keys, ValuesOf;
      var keyValues: map<string, seq<string>> := map[];
      GroupedNone(keyValues);
      hide Grouped;
      for m := 0 to nMap
        invariant files == old(files) && forall l :: 0 <= l < m ==> Inter(l, r) in files
        invariant Grouped(keyValues, Gathered(files, m, r))
      {
        if Inter(m, r) !in files {
          return false;
        }
        keyValues := Decode(files[Inter(m, r)], keyValues, Gathered(files, m, r));
      }
      var merged := ReduceKeys(keyValues, job.reduceF, Gathered(files, nMap, r));
      files := files[Res(r) := merged];
      return true;
    }

    /** merge, master_splitmerge.go:14-50.  A missing result file kills the master. */
    method Merge(job: Job) returns (ok: bool)
      modifies this`output
      ensures ok <==> forall r :: 0 <= r < job.nReduce ==> Res(r) in files
      ensures !ok ==> output == old(output)
      ensures ok ==> exists keys: seq<string> ::
        && Ascending(keys) && (forall k :: k in keys <==> k in MergedFiles(files, job.nReduce))
        && output == Some(Text(Listed(keys, MergedFiles(files, job.nReduce))))
        && exists cuts :: Lines(output.value, Listed(keys, MergedFiles(files, job.nReduce)), cuts)
    {
      hide Enter, Less, Text, Lines;
      var kvs: map<string, string> := map[];
      for i := 0 to job.nReduce
        invariant forall r :: 0 <= r < i ==> Res(r) in files
        invariant kvs == MergedFiles(files, i) && output == old(output)
      {
        if Res(i) !in files {
          return false;
        }
        kvs := EnterFile(files[Res(i)], kvs);
      }
      var keys := SortedKeys(kvs.Keys);
      var text;
      ghost var cuts;
      text, cuts := WriteLines(keys, kvs);
      output := Some(text);
      return true;
    }

    /** All intermediate files are present with their specified content. */
    ghost predicate MapsDone(job: Job, n: nat)
      requires job.nReduce >= 1 && n <= |job.inputs|
      reads this
    {
      forall m, r :: 0 <= m < n && 0 <= r < job.nReduce ==>
        Inter(m, r) in files && files[Inter(m, r)] == Content(job, Inter(m, r))
    }

    ghost predicate ReducesDone(job: Job, n: nat)
      requires job.nReduce >= 1
      reads this
    {
      forall r :: 0 <= r < n ==> Res(r) in files && files[Res(r)] == Result(job, r)
    }

    /** The map phase of Sequential, master.go:62-65. */
    method MapPhase(job: Job)
      requires job.nReduce >= 1
      modifies this`files
      ensures MapsDone(job, |job.inputs|)
    {
      hide Content;
      for i := 0 to |job.inputs|
        invariant MapsDone(job, i)
      {
        DoMap(job, i);
      }
    }

    /** The reduce phase of Sequential, master.go:66-69. */
    method ReducePhase(job: Job)
      requires job.nReduce >= 1 && MapsDone(job, |job.inputs|)
      modifies this`files
      ensures MapsDone(job, |job.inputs|) && ReducesDone(job, job.nReduce)
    {
      hide Content, GroupBy;
      for i := 0 to job.nReduce
        invariant MapsDone(job, |job.inputs|) && ReducesDone(job, i)
      {
        GatheredIsCollected(job, files, |job.inputs|, i);
        var done := DoReduce(job, i, |job.inputs|);
      }
    }

    /** Sequential, master.go:55-75 with run, master.go:100-118: any job writes its answer. */
    method Sequential(job: Job) returns (ok: bool)
      requires job.nReduce >= 1
      modifies this
      ensures ok && output == Some(Text(Answer(job))) && exists cuts :: Lines(output.value, Answer(job), cuts)
    {
      hide Content, Result, Answer, Text, Less, Lines;
      MapPhase(job);
      ReducePhase(job);
      MergedFilesIsMap(job, files, job.nReduce);
      ok := Merge(job);
      ghost var keys :| Ascending(keys) && (forall k :: k in keys <==> k in MergedFiles(files, job.nReduce))
        && output == Some(Text(Listed(keys, MergedFiles(files, job.nReduce))))
        && exists cuts :: Lines(output.value, Listed(keys, MergedFiles(files, job.nReduce)), cuts);
      MergeIsAnswer(job, keys);
    }
  }

  /** With the specified intermediate files, a reduce task gathers its partition. */
  lemma {:induction false} GatheredIsCollected(job: Job, files: Files, n: nat, r: nat)
    requires job.nReduce >= 1 && n <= |job.inputs|
    requires forall m :: 0 <= m < n ==> Inter(m, r) in files && files[Inter(m, r)] == Content(job, Inter(m, r))
    ensures Gathered(files, n, r) == Collected(job, n, r)
  {
    if n > 0 {
      GatheredIsCollected(job, files, n - 1, r);
    }
  }

  lemma {:induction false} MergedFilesIsMap(job: Job, files: Files, n: nat)
    requires job.nReduce >= 1
    requires forall r :: 0 <= r < n ==> Res(r) in files && files[Res(r)] == Result(job, r)
    ensures MergedFiles(files, n) == MergedMap(job, n)
  {
    if n > 0 {
      MergedFilesIsMap(job, files, n - 1);
    }
  }
}
