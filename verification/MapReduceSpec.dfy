/** What a MapReduce job computes, and why partitioning does not change it. */
module MapReduceSpec {
  import opened KeyOrder

  datatype KeyValue = KeyValue(key: string, value: string)

  /** One input file: its name and contents. */
  datatype Input = Input(name: string, contents: string)

  /** A job: the user's functions, the key hash and the number of partitions. */
  datatype Job = Job(
    inputs: seq<Input>,
    nReduce: nat,
    mapF: (string, string) -> seq<KeyValue>,
    reduceF: (string, seq<string>) -> string,
    ihash: string -> nat
  )

  // ---------- the specification: group by key ----------

  /** All pairs emitted by the first n map tasks, in task then emission order. */
  function Emitted(job: Job, n: nat): seq<KeyValue>
    requires n <= |job.inputs|
  {
    if n == 0 then [] else Emitted(job, n - 1) + Mapped(job, n - 1)
  }

  function Mapped(job: Job, m: nat): seq<KeyValue>
    requires m < |job.inputs|
  {
    job.mapF(job.inputs[m].name, job.inputs[m].contents)
  }

  /** kvs is what mapF gives for the name and contents of each of the first n inputs, one
      after the other, cut at these positions. */
  ghost predicate MapPieces(job: Job, kvs: seq<KeyValue>, n: nat, cuts: seq<nat>)
    requires n <= |job.inputs|
  {
    && |cuts| == n + 1 && cuts[0] == 0 && cuts[n] == |kvs|
    && forall i, j :: 0 <= i && j == i + 1 <= n ==>
      cuts[i] <= cuts[j] <= |kvs| && kvs[cuts[i]..cuts[j]] == job.mapF(job.inputs[i].name, job.inputs[i].contents)
  }

  lemma MapPiecesSnoc(job: Job, kvs: seq<KeyValue>, n: nat, cuts: seq<nat>, more: seq<KeyValue>)
    requires n < |job.inputs| && MapPieces(job, kvs, n, cuts)
    requires more == job.mapF(job.inputs[n].name, job.inputs[n].contents)
    ensures MapPieces(job, kvs + more, n + 1, cuts + [|kvs + more|])
  {
    var all, ends := kvs + more, cuts + [|kvs + more|];
    forall i, j | 0 <= i && j == i + 1 <= n + 1
      ensures ends[i] <= ends[j] <= |all| && all[ends[i]..ends[j]] == job.mapF(job.inputs[i].name, job.inputs[i].contents)
    {
      if i < n {
        assert ends[i] == cuts[i] && ends[j] == cuts[j];
        assert all[cuts[i]..cuts[j]] == kvs[cuts[i]..cuts[j]];
      } else {
        assert ends[i] == |kvs| && ends[j] == |all| && all[|kvs|..|all|] == more;
      }
    }
  }

  /** What is emitted is what mapF gives for each input's name and contents, in the order
      of the inputs. */
  lemma {:induction false} EmittedPieces(job: Job, n: nat) returns (cuts: seq<nat>)
    requires n <= |job.inputs|
    ensures MapPieces(job, Emitted(job, n), n, cuts)
    decreases n
  {
    if n == 0 {
      cuts := [0];
    } else {
      var c := EmittedPieces(job, n - 1);
      hide MapPieces;
      MapPiecesSnoc(job, Emitted(job, n - 1), n - 1, c, Mapped(job, n - 1));
      cuts := c + [|Emitted(job, n)|];
    }
  }

  function Keys(kvs: seq<KeyValue>): (r: seq<string>)
    ensures |r| == |kvs| && forall i :: 0 <= i < |kvs| ==> r[i] == kvs[i].key
  {
    if kvs == [] then [] else Keys(kvs[..|kvs| - 1]) + [kvs[|kvs| - 1].key]
  }

  /** The values emitted for k, in order. */
  function ValuesOf(k: string, kvs: seq<KeyValue>): seq<string> {
    if kvs == [] then []
    else ValuesOf(k, kvs[..|kvs| - 1]) + (if kvs[|kvs| - 1].key == k then [kvs[|kvs| - 1].value] else [])
  }

  /** The values of k are those at the positions of k, all of them, in ascending order. */
  lemma {:induction false} ValuesOfAt(k: string, kvs: seq<KeyValue>) returns (at: seq<nat>)
    ensures |at| == |ValuesOf(k, kvs)|
    ensures forall i, j :: 0 <= i < j < |at| ==> at[i] < at[j]
    ensures forall i :: 0 <= i < |at| ==> at[i] < |kvs| && kvs[at[i]] == KeyValue(k, ValuesOf(k, kvs)[i])
    ensures forall p :: 0 <= p < |kvs| && kvs[p].key == k ==> p in at
    decreases |kvs|
  {
    if kvs == [] {
      at := [];
    } else {
      var n := |kvs| - 1;
      at := ValuesOfAt(k, kvs[..n]);
      if kvs[n].key == k { at := at + [n]; }
    }
  }

  /** One pair per key, in the order of the keys. */
  function Reduced(keys: seq<string>, kvs: seq<KeyValue>, reduceF: (string, seq<string>) -> string): (r: seq<KeyValue>)
    ensures |r| == |keys|
    ensures forall i :: 0 <= i < |keys| ==> r[i] == KeyValue(keys[i], reduceF(keys[i], ValuesOf(keys[i], kvs)))
  {
    if keys == [] then []
    else
      var k := keys[|keys| - 1];
      Reduced(keys[..|keys| - 1], kvs, reduceF) + [KeyValue(k, reduceF(k, ValuesOf(k, kvs)))]
  }

  function GroupBy(kvs: seq<KeyValue>, reduceF: (string, seq<string>) -> string): seq<KeyValue> {
    Reduced(Sort(Keys(kvs)), kvs, reduceF)
  }

  /** The answer of the job: every emitted key once, ascending, with its values reduced. */
  function Answer(job: Job): seq<KeyValue> {
    GroupBy(Emitted(job, |job.inputs|), job.reduceF)
  }

  /** Exactly the emitted keys, strictly ascending, each with the reduction of all
      its values in emission order. */
  ghost predicate IsGrouping(out: seq<KeyValue>, kvs: seq<KeyValue>, reduceF: (string, seq<string>) -> string) {
    && Ascending(Keys(out))
    && (forall k :: k in Keys(out) <==> k in Keys(kvs))
    && (forall i :: 0 <= i < |out| ==> out[i].value == reduceF(out[i].key, ValuesOf(out[i].key, kvs)))
  }

  lemma KeysOfReduced(keys: seq<string>, kvs: seq<KeyValue>, reduceF: (string, seq<string>) -> string)
    ensures Keys(Reduced(keys, kvs, reduceF)) == keys
  {
  }

  lemma GroupByIsGrouping(kvs: seq<KeyValue>, reduceF: (string, seq<string>) -> string)
    ensures IsGrouping(GroupBy(kvs, reduceF), kvs, reduceF)
  {
    SortAscending(Keys(kvs));
    KeysOfReduced(Sort(Keys(kvs)), kvs, reduceF);
  }

  /** There is only one grouping. */
  lemma GroupingUnique(out: seq<KeyValue>, kvs: seq<KeyValue>, reduceF: (string, seq<string>) -> string)
    requires IsGrouping(out, kvs, reduceF)
    ensures out == GroupBy(kvs, reduceF)
  {
    GroupByIsGrouping(kvs, reduceF);
    var r := GroupBy(kvs, reduceF);
    AscendingUnique(Keys(out), Keys(r));
    forall i | 0 <= i < |out| ensures out[i] == r[i] {
      assert out[i].key == Keys(out)[i] == Keys(r)[i] == r[i].key;
    }
  }

  // ---------- partitioning ----------

  /** The partition that owns key k. */
  function PartitionOf(job: Job, k: string): nat
    requires job.nReduce >= 1
  {
    job.ihash(k) % job.nReduce
  }

  /** The pairs of kvs that belong to partition r, in order. */
  function Part(job: Job, kvs: seq<KeyValue>, r: nat): seq<KeyValue>
    requires job.nReduce >= 1
  {
    if kvs == [] then []
    else
      Part(job, kvs[..|kvs| - 1], r) +
      (if PartitionOf(job, kvs[|kvs| - 1].key) == r then [kvs[|kvs| - 1]] else [])
  }

  /** What reduce task r reads from the first n map tasks. */
  function Collected(job: Job, n: nat, r: nat): seq<KeyValue>
    requires job.nReduce >= 1 && n <= |job.inputs|
  {
    if n == 0 then [] else Collected(job, n - 1, r) + Part(job, Mapped(job, n - 1), r)
  }

  lemma {:induction false} PartConcat(job: Job, a: seq<KeyValue>, b: seq<KeyValue>, r: nat)
    requires job.nReduce >= 1
    ensures Part(job, a + b, r) == Part(job, a, r) + Part(job, b, r)
    decreases |b|
  {
    if b == [] {
      assert a + b == a;
    } else {
      assert (a + b)[..|a + b| - 1] == a + b[..|b| - 1];
      PartConcat(job, a, b[..|b| - 1], r);
    }
  }

  /** Collecting the parts is taking the part of everything emitted. */
  lemma {:induction false} CollectedIsPart(job: Job, n: nat, r: nat)
    requires job.nReduce >= 1 && n <= |job.inputs|
    ensures Collected(job, n, r) == Part(job, Emitted(job, n), r)
  {
    if n > 0 {
      CollectedIsPart(job, n - 1, r);
      PartConcat(job, Emitted(job, n - 1), Mapped(job, n - 1), r);
    }
  }

  /** A partition keeps all the values of its own keys and has no other key. */
  lemma {:induction false} PartValues(job: Job, kvs: seq<KeyValue>, r: nat, k: string)
    requires job.nReduce >= 1
    ensures job.ihash(k) % job.nReduce == r ==> ValuesOf(k, Part(job, kvs, r)) == ValuesOf(k, kvs)
    ensures k in Keys(Part(job, kvs, r)) <==> k in Keys(kvs) && job.ihash(k) % job.nReduce == r
    decreases |kvs|
  {
    if kvs != [] {
      var last, init := kvs[|kvs| - 1], kvs[..|kvs| - 1];
      PartValues(job, init, r, k);
      assert Keys(kvs) == Keys(init) + [last.key];
      var p := Part(job, init, r);
      if PartitionOf(job, last.key) == r {
        assert (p + [last])[..|p|] == p;
        assert Keys(p + [last]) == Keys(p) + [last.key];
      } else {
        assert p + [] == p;
      }
    }
  }

  // ---------- merging ----------

  /** Entering pairs into a map one after the other; later pairs overwrite. */
  function Enter(kvs: seq<KeyValue>, into: map<string, string>): map<string, string> {
    if kvs == [] then into
    else Enter(kvs[..|kvs| - 1], into)[kvs[|kvs| - 1].key := kvs[|kvs| - 1].value]
  }

  /** The map entries as pairs in the order of the given keys. */
  function Listed(keys: seq<string>, m: map<string, string>): (r: seq<KeyValue>)
    requires forall k :: k in keys ==> k in m
    ensures |r| == |keys|
    ensures forall i :: 0 <= i < |keys| ==> r[i] == KeyValue(keys[i], m[keys[i]])
  {
    seq(|keys|, i requires 0 <= i < |keys| => assert keys[i] in keys; KeyValue(keys[i], m[keys[i]]))
  }

  /** The content reduce task r writes. */
  function Result(job: Job, r: nat): seq<KeyValue>
    requires job.nReduce >= 1
  {
    GroupBy(Collected(job, |job.inputs|, r), job.reduceF)
  }

  /** The map built by merge from the first n reduce results. */
  function MergedMap(job: Job, n: nat): map<string, string>
    requires job.nReduce >= 1
  {
    if n == 0 then map[] else Enter(Result(job, n - 1), MergedMap(job, n - 1))
  }

  /** Entering a grouping changes exactly its keys, to their reductions. */
  lemma {:induction false} EnterLookup(kvs: seq<KeyValue>, into: map<string, string>, k: string)
    requires Ascending(Keys(kvs))
    ensures k in Enter(kvs, into) <==> k in into || k in Keys(kvs)
    ensures k !in Keys(kvs) && k in into ==> Enter(kvs, into)[k] == into[k]
    ensures forall i :: 0 <= i < |kvs| && kvs[i].key == k ==> Enter(kvs, into)[k] == kvs[i].value
    decreases |kvs|
  {
    if kvs != [] {
      var last, init := kvs[|kvs| - 1], kvs[..|kvs| - 1];
      assert Keys(kvs) == Keys(init) + [last.key];
      assert forall i :: 0 <= i < |init| ==> Keys(init)[i] == Keys(kvs)[i];
      EnterLookup(init, into, k);
      forall i | 0 <= i < |kvs| && kvs[i].key == k ensures Enter(kvs, into)[k] == kvs[i].value {
        if i < |kvs| - 1 {
          assert Less(Keys(kvs)[i], Keys(kvs)[|kvs| - 1]);
          LessIrreflexive(k);
          assert init[i].key == k;
        }
      }
    }
  }

  /** Reduce result r has exactly the emitted keys of its partition, with the
      reductions of all their values. */
  lemma ResultLookup(job: Job, r: nat, k: string)
    requires job.nReduce >= 1
    ensures Ascending(Keys(Result(job, r)))
    ensures k in Keys(Result(job, r)) <==> k in Keys(Emitted(job, |job.inputs|)) && job.ihash(k) % job.nReduce == r
    ensures forall i :: 0 <= i < |Result(job, r)| && Result(job, r)[i].key == k ==>
      Result(job, r)[i].value == job.reduceF(k, ValuesOf(k, Emitted(job, |job.inputs|)))
  {
    hide PartitionOf, Ascending, GroupBy, Part, Less;
    CollectedIsPart(job, |job.inputs|, r);
    GroupByIsGrouping(Collected(job, |job.inputs|, r), job.reduceF);
    PartValues(job, Emitted(job, |job.inputs|), r, k);
    forall i | 0 <= i < |Result(job, r)| && Result(job, r)[i].key == k
      ensures Result(job, r)[i].value == job.reduceF(k, ValuesOf(k, Emitted(job, |job.inputs|)))
    {
      assert Keys(Result(job, r))[i] == k;
    }
  }

  /** The merged map holds every key of the partitions so far, with the reduction
      of all its values: no entry is overwritten by another partition. */
  lemma {:induction false} MergedLookup(job: Job, n: nat, k: string)
    requires job.nReduce >= 1
    ensures var all := Emitted(job, |job.inputs|);
      && (k in MergedMap(job, n) <==> k in Keys(all) && job.ihash(k) % job.nReduce < n)
      && (k in MergedMap(job, n) ==> MergedMap(job, n)[k] == job.reduceF(k, ValuesOf(k, all)))
  {
    hide PartitionOf, Ascending, Result, Less, Enter, ValuesOf;
    if n > 0 {
      var out := Result(job, n - 1);
      MergedLookup(job, n - 1, k);
      ResultLookup(job, n - 1, k);
      EnterLookup(out, MergedMap(job, n - 1), k);
      if k in Keys(out) {
        var i :| 0 <= i < |out| && Keys(out)[i] == k;
        assert out[i].key == k;
      }
    }
  }

  /** Listing the merged map in key order gives the answer, whatever the number of
      partitions and the hash. */
  lemma MergeIsAnswer(job: Job, keys: seq<string>)
    requires job.nReduce >= 1
    requires Ascending(keys) && forall k :: k in keys <==> k in MergedMap(job, job.nReduce)
    ensures Listed(keys, MergedMap(job, job.nReduce)) == Answer(job)
  {
    var all, m := Emitted(job, |job.inputs|), MergedMap(job, job.nReduce);
    var out := Listed(keys, m);
    assert Keys(out) == keys;
    forall k ensures k in keys <==> k in Keys(all) {
      MergedLookup(job, job.nReduce, k);
    }
    forall i | 0 <= i < |out| ensures out[i].value == job.reduceF(out[i].key, ValuesOf(out[i].key, all)) {
      assert keys[i] in keys;
      MergedLookup(job, job.nReduce, keys[i]);
    }
    GroupingUnique(out, all, job.reduceF);
  }

  /** The output file, one "key: value" line per pair. */
  function Text(out: seq<KeyValue>): string {
    if out == [] then ""
    else Text(out[..|out| - 1]) + out[|out| - 1].key + ": " + out[|out| - 1].value + "\n"
  }

  /** text is the lines of out one after the other, cut at these positions: key, colon and
      space, value, newline. */
  ghost predicate Lines(text: string, out: seq<KeyValue>, cuts: seq<nat>) {
    && |cuts| == |out| + 1 && cuts[0] == 0 && cuts[|out|] == |text|
    && forall i, j :: 0 <= i && j == i + 1 <= |out| ==>
      cuts[i] <= cuts[j] <= |text| && text[cuts[i]..cuts[j]] == out[i].key + ": " + out[i].value + "\n"
  }

  lemma LinesSnoc(text: string, out: seq<KeyValue>, cuts: seq<nat>, kv: KeyValue)
    requires Lines(text, out, cuts)
    ensures var all := text + (kv.key + ": " + kv.value + "\n"); Lines(all, out + [kv], cuts + [|all|])
  {
    var line := kv.key + ": " + kv.value + "\n";
    var all := text + line;
    var ends := cuts + [|all|];
    forall i, j | 0 <= i && j == i + 1 <= |out| + 1
      ensures ends[i] <= ends[j] <= |all|
      ensures all[ends[i]..ends[j]] == (out + [kv])[i].key + ": " + (out + [kv])[i].value + "\n"
    {
      if i < |out| {
        assert ends[i] == cuts[i] && ends[j] == cuts[j];
        assert all[cuts[i]..cuts[j]] == text[cuts[i]..cuts[j]];
      } else {
        assert all[ends[i]..ends[j]] == line;
      }
    }
  }

  lemma {:induction false} TextLines(out: seq<KeyValue>) returns (cuts: seq<nat>)
    ensures Lines(Text(out), out, cuts)
    decreases |out|
  {
    if out == [] {
      cuts := [0];
    } else {
      var n := |out| - 1;
      var c := TextLines(out[..n]);
      hide Lines;
      var kv := out[n];
      LinesSnoc(Text(out[..n]), out[..n], c, kv);
      var line := kv.key + ": " + kv.value + "\n";
      assert Text(out) == Text(out[..n]) + line && out == out[..n] + [kv];
      cuts := c + [|Text(out)|];
    }
  }
}
