/** The transaction log of 2PCKVStore/tpclog.c: one numbered file per record. */
module TpcLog {
  import opened Basics
  import opened KvStore

  const ERR_INVLDMSG := -14
  const MAX_LOGENTRY := MAX_KEYLEN + MAX_VALLEN + 2

  datatype MsgType = INDEX | GETREQ | PUTREQ | DELREQ | REGISTER | COMMIT | ABORT | GETRESP | SUCCESS | ERROR | VOTE | ACK | EMPTY

  /** A log record; key and value are empty where the type has none. */
  datatype Record = Record(kind: MsgType, key: string, value: string)

  predicate Loggable(kind: MsgType) {
    kind.PUTREQ? || kind.DELREQ? || kind.ABORT? || kind.COMMIT?
  }

  /** The record tpclog_log stores for a message (tpclog.c:58-73). */
  function RecordOf(kind: MsgType, key: string, value: string): Record {
    Record(kind,
           if kind.PUTREQ? || kind.DELREQ? then key else "",
           if kind.PUTREQ? then value else "")
  }

  // ---------- the bytes of a log file ----------

  /** A file is two header words, then bytes. */
  datatype Cell = Kind(kind: MsgType) | Length(length: int) | Byte(c: char)

  function Bytes(s: string): (r: seq<Cell>)
    ensures |r| == |s| && forall i :: 0 <= i < |s| ==> r[i] == Byte(s[i])
  {
    if s == [] then [] else [Byte(s[0])] + Bytes(s[1..])
  }

  function Data(kind: MsgType, key: string, value: string): string {
    (if kind.PUTREQ? || kind.DELREQ? then key + ['\0'] else "") + (if kind.PUTREQ? then value + ['\0'] else "")
  }

  /** What tpclog_log writes: header, data, and the rest of the malloced struct. */
  function Image(kind: MsgType, key: string, value: string, rest: string): seq<Cell> {
    [Kind(kind), Length(|Data(kind, key, value)|)] + Bytes(Data(kind, key, value)) + Bytes(rest)
  }

  /** tpclog_load_entry, tpclog.c:88-104: reads the header and two bytes past it,
      then length bytes more; a short file is an error. */
  function Load(file: seq<Cell>): Option<(MsgType, string)> {
    if |file| < 4 || !file[0].Kind? || !file[1].Length? || file[1].length < 0 || |file| < 4 + file[1].length
       || exists i :: 2 <= i < 2 + file[1].length && !file[i].Byte?
    then None
    else Some((file[0].kind, Text(file[2..2 + file[1].length])))
  }

  function Text(cells: seq<Cell>): (s: string)
    requires forall i :: 0 <= i < |cells| ==> cells[i].Byte?
    ensures |s| == |cells| && forall i :: 0 <= i < |s| ==> s[i] == cells[i].c
  {
    if cells == [] then "" else [cells[0].c] + Text(cells[1..])
  }

  /** The record a loaded entry stands for: the C strings in its data. */
  function Parse(kind: MsgType, data: string): Record {
    var key := TextAt(data, 0);
    Record(kind,
           if kind.PUTREQ? || kind.DELREQ? then key else "",
           if kind.PUTREQ? && |key| + 1 <= |data| then TextAt(data, |key| + 1) else "")
  }

  lemma LoadCells(kind: MsgType, d: string, rest: string)
    requires |rest| >= 2
    ensures Load([Kind(kind), Length(|d|)] + Bytes(d) + Bytes(rest)) == Some((kind, d))
  {
    var f := [Kind(kind), Length(|d|)] + Bytes(d) + Bytes(rest);
    assert f[2..2 + |d|] == Bytes(d);
    assert forall i :: 2 <= i < 2 + |d| ==> f[i] == Byte(d[i - 2]);
    assert Text(Bytes(d)) == d;
  }

  lemma ParseData(kind: MsgType, key: string, value: string)
    requires IsText(key) && IsText(value)
    ensures Parse(kind, Data(kind, key, value)) == RecordOf(kind, key, value)
  {
    var d := Data(kind, key, value);
    if kind.PUTREQ? {
      assert d == Pack(key, value);
      PackRoundTrip(key, value);
    } else if kind.DELREQ? {
      TextAtPrefix(d, 0, key);
    }
  }

  /** A complete record file loads back to the record. */
  lemma LoadImage(kind: MsgType, key: string, value: string, rest: string)
    requires IsText(key) && IsText(value) && |rest| >= 2
    ensures Load(Image(kind, key, value, rest)).Some?
    ensures var e := Load(Image(kind, key, value, rest)).value; Parse(e.0, e.1) == RecordOf(kind, key, value)
  {
    hide Load, Parse;
    LoadCells(kind, Data(kind, key, value), rest);
    ParseData(kind, key, value);
  }

  /** A torn record never loads as something else: a prefix loads exactly when the
      header, the data and two more bytes have reached the file, and then it loads
      to the whole record. */
  lemma LoadPrefix(kind: MsgType, key: string, value: string, rest: string, k: nat)
    requires IsText(key) && IsText(value) && |rest| >= 2 && k <= |Image(kind, key, value, rest)|
    ensures var f := Image(kind, key, value, rest)[..k];
      && (Load(f).Some? <==> k >= 4 + |Data(kind, key, value)|)
      && (Load(f).Some? ==> Parse(Load(f).value.0, Load(f).value.1) == RecordOf(kind, key, value))
  {
    hide Parse;
    var d := Data(kind, key, value);
    var f := Image(kind, key, value, rest)[..k];
    if k >= 4 + |d| {
      var m := k - 2 - |d|;
      assert f == [Kind(kind), Length(|d|)] + Bytes(d) + Bytes(rest[..m]);
      LoadCells(kind, d, rest[..m]);
      ParseData(kind, key, value);
    } else if k >= 2 {
      assert f[1] == Length(|d|);
    }
  }

  // ---------- the log ----------

  type LogFiles = map<nat, seq<Cell>>

  /** Files are numbered 0..n-1; every untorn one loads to its record. */
  ghost predicate Numbered(files: LogFiles, records: seq<Option<Record>>) {
    && (forall i: nat :: i in files <==> i < |records|)
    && (forall i :: 0 <= i < |records| && records[i].Some? ==>
          Load(files[i]).Some? && Parse(Load(files[i]).value.0, Load(files[i]).value.1) == records[i].value)
  }

  lemma NumberedAppend(files: LogFiles, records: seq<Option<Record>>, image: seq<Cell>, r: Option<Record>)
    requires Numbered(files, records)
    requires r.Some? ==> Load(image).Some? && Parse(Load(image).value.0, Load(image).value.1) == r.value
    ensures Numbered(files[|records| := image], records + [r])
  {
    hide Load, Parse;
  }

  class Log {
    var files: LogFiles
    var nextid: nat
    var iterpos: nat
    /** What was logged; None where a crash tore the file. */
    ghost var records: seq<Option<Record>>

    ghost predicate Valid()
      reads this
    {
      Numbered(files, records) && nextid == |records|
    }

    constructor ()
      ensures Valid() && records == []
    {
      files, nextid, iterpos, records := map[], 0, 0, [];
    }

    /** tpclog_init, tpclog.c:16-37: counts the files that are there, torn or not. */
    method Init()
      requires Numbered(files, records)
      modifies this`nextid
      ensures Valid()
    {
      var n := CountFiles();
      nextid := n;
    }

    method CountFiles() returns (n: nat)
      requires Numbered(files, records)
      ensures n == |records|
    {
      n := 0;
      while n in files
        invariant n <= |records|
        decreases |records| - n
      {
        n := n + 1;
      }
    }

    /** tpclog_log, tpclog.c:43-83, with every file operation succeeding; rest is
        the uninitialised tail of the struct. */
    method Append(kind: MsgType, key: string, value: string, rest: string) returns (ret: int)
      requires Valid() && IsText(key) && IsText(value) && |rest| == MAX_LOGENTRY + 2
      modifies this`files, this`nextid, this`records
      ensures Valid() && ret == if Loggable(kind) then 0 else ERR_INVLDMSG
      ensures records == old(records) + if Loggable(kind) then [Some(RecordOf(kind, key, value))] else []
      ensures ret == 0 ==> |records| == |old(records)| + 1 && var r := records[|old(records)|];
        && (kind.PUTREQ? ==> r == Some(Record(PUTREQ, key, value)))
        && (kind.DELREQ? ==> r == Some(Record(DELREQ, key, "")))
        && (kind.ABORT? || kind.COMMIT? ==> r == Some(Record(kind, "", "")))
    {
      if !Loggable(kind) {
        return ERR_INVLDMSG;
      }
      hide Load, Parse, Image, Numbered;
      LoadImage(kind, key, value, rest);
      NumberedAppend(files, records, Image(kind, key, value, rest), Some(RecordOf(kind, key, value)));
      files := files[nextid := Image(kind, key, value, rest)];
      records := records + [Some(RecordOf(kind, key, value))];
      nextid := nextid + 1;
      return 0;
    }

    /** A crash somewhere inside tpclog_log, then tpclog_init on restart: nothing,
        or any prefix of the record, may have reached the file. */
    method CrashInAppend(kind: MsgType, key: string, value: string, rest: string, written: Option<nat>)
      requires Valid() && Loggable(kind) && IsText(key) && IsText(value) && |rest| == MAX_LOGENTRY + 2
      requires written.Some? ==> written.value <= |Image(kind, key, value, rest)|
      modifies this`files, this`nextid, this`records
      ensures Valid()
      ensures written.None? ==> records == old(records)
      ensures written.Some? ==> |records| == |old(records)| + 1 && records[..|old(records)|] == old(records)
      ensures written.Some? ==>
        (records[|old(records)|] == if written.value >= 4 + |Data(kind, key, value)| then Some(RecordOf(kind, key, value)) else None)
    {
      hide Load, Parse, Image, RecordOf, Numbered, Data;
      if written.Some? {
        LoadPrefix(kind, key, value, rest, written.value);
        var torn := Image(kind, key, value, rest)[..written.value];
        ghost var r := if written.value >= 4 + |Data(kind, key, value)| then Some(RecordOf(kind, key, value)) else None;
        NumberedAppend(files, records, torn, r);
        files := files[nextid := torn];
        records := records + [r];
      }
      Init();
    }

    /** The records the iteration has still to return, oldest first. */
    ghost function Unread(): seq<Option<Record>>
      reads this
    {
      if iterpos <= |records| then records[iterpos..] else []
    }

    /** tpclog_iterate_begin, tpclog.c:109: the whole log is to be read again. */
    method IterateBegin()
      modifies this`iterpos
      ensures Unread() == records && iterpos <= |records| && (old(Valid()) ==> Valid())
    {
      iterpos := 0;
    }

    /** tpclog_iterate_has_next, tpclog.c:114-121. */
    predicate HasNext()
      reads this
    {
      iterpos in files
    }

    /** tpclog_iterate_next, tpclog.c:129-141. */
    method IterateNext() returns (entry: Option<(MsgType, string)>)
      requires Valid()
      modifies this`iterpos
      ensures Valid() && records == old(records) && files == old(files)
      ensures old(Unread()) == [] ==> entry == None && Unread() == []
      ensures old(Unread()) != [] ==> Unread() == old(Unread())[1..]
      ensures old(Unread()) != [] && old(Unread())[0].Some? ==>
        entry.Some? && Parse(entry.value.0, entry.value.1) == old(Unread())[0].value
      ensures old(iterpos) <= |records| ==> iterpos <= |records|
    {
      if !HasNext() {
        return None;
      }
      entry := Load(files[iterpos]);
      iterpos := iterpos + 1;
    }

    /** Iterating over a log with no torn file returns exactly what was appended,
        in order. */
    method ReadAll() returns (all: seq<Record>)
      requires Valid() && forall i :: 0 <= i < |records| ==> records[i].Some?
      modifies this`iterpos
      ensures |all| == |records| && forall i :: 0 <= i < |all| ==> records[i] == Some(all[i])
      ensures Valid() && records == old(records) && files == old(files)
    {
      hide Valid, HasNext, Load, Parse;
      all := [];
      IterateBegin();
      while HasNext()
        invariant Valid() && records == old(records) && files == old(files)
        invariant iterpos <= |records| && |all| <= |records| && Unread() == records[|all|..]
        invariant forall i :: 0 <= i < |all| ==> records[i] == Some(all[i])
        decreases |records| - iterpos
      {
        MoreToRead();
        assert old(records)[|all|].Some?;
        var entry := IterateNext();
        all := all + [Parse(entry.value.0, entry.value.1)];
      }
      MoreToRead();
    }

    lemma MoreToRead()
      requires Valid()
      ensures HasNext() <==> iterpos < |records|
    {
    }
  }
}
