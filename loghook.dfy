/**
 * The batched log sink `LogStoreHook` of pkg/ext/hook.go: a logrus hook that
 * turns every entry into a record, buffers the records, and sends the buffer
 * to a remote log store in one batch when the buffer is full, when the flush
 * interval has passed, or when a flush is forced. A failed batch is retried
 * record by record, and a record whose own put fails is discarded.
 *
 * The remote store is an oracle: `LogStore.accepts(k)` says whether the put
 * call with sequence number `k` succeeds. The wall clock is read twice by a
 * flush: `now` when it decides whether to send and `done` when it restarts the
 * interval after the puts; both are parameters in milliseconds.
 */
module LogHook {
  import opened Wrappers
  import Strconv

  /** A flush is due once the buffer holds this many records. */
  const BatchSize: nat := 100
  /** A flush is due once this many milliseconds have passed since the last one. */
  const FlushInterval: int := 3000
  const KeyMessage: string := "message"
  const KeyLevel: string := "level"

  // ---------------------------------------------------------------------
  // Severities

  /** A logrus level: an unsigned 32-bit number, 0 being the most severe. */
  type Level = l: nat | l < 0x1_0000_0000

  const PanicLevel: Level := 0
  const FatalLevel: Level := 1
  const ErrorLevel: Level := 2
  const WarnLevel: Level := 3
  const InfoLevel: Level := 4
  const DebugLevel: Level := 5
  const TraceLevel: Level := 6

  const HookedLevels: seq<Level> := [PanicLevel, FatalLevel, ErrorLevel, WarnLevel, InfoLevel]

  /** The levels the hook is fired for: exactly those at least as severe as Info, most severe first. */
  function Levels(): (r: seq<Level>)
    ensures forall l: Level :: l in r <==> l <= InfoLevel
    ensures forall i, j :: 0 <= i < j < |r| ==> r[i] < r[j]
  {
    HookedLevels
  }

  /** The syslog severity code written into the `level` field; -1 for a level logrus does not define. */
  function LogrusToSyslog(level: Level): (code: int)
    ensures code == -1 <==> level > TraceLevel
    ensures -1 <= code <= 8
  {
    if level == PanicLevel then 0
    else if level == FatalLevel then 2
    else if level == ErrorLevel then 3
    else if level == WarnLevel then 4
    else if level == InfoLevel then 6
    else if level == DebugLevel then 7
    else if level == TraceLevel then 8
    else -1
  }

  /** The mapping keeps the order of severity: a more severe level gets a smaller code. */
  lemma SyslogKeepsSeverityOrder(a: Level, b: Level)
    requires a < b <= TraceLevel
    ensures 0 <= LogrusToSyslog(a) < LogrusToSyslog(b)
  {
  }

  // ---------------------------------------------------------------------
  // Entries and records

  /**
   * A field value of an entry: a Go string, or any other value together with
   * the text `fmt.Sprintf("%v", v)` renders for it (formatting is outside the model).
   */
  datatype Value = Text(s: string) | Other(rendered: string)

  function ToString(v: Value): (r: string)
    ensures v.Text? ==> r == v.s
  {
    match v
    case Text(s) => s
    case Other(rendered) => rendered
  }

  /** A logrus entry: its time in Unix milliseconds, level, message and data fields. */
  datatype Entry = Entry(time: int, level: Level, message: string, data: map<string, Value>)

  /** A buffered record: the entry's time and its fields rendered as strings. */
  datatype Message = Message(time: int, contents: map<string, string>)

  function Stringify(m: map<string, Value>): (r: map<string, string>)
    ensures r.Keys == m.Keys
    ensures forall k :: k in m ==> r[k] == ToString(m[k])
  {
    map k | k in m :: ToString(m[k])
  }

  /** The two fields every record starts with: the message, and the level as a decimal syslog code. */
  function BaseContents(e: Entry): (r: map<string, string>)
    ensures r.Keys == {KeyMessage, KeyLevel}
    ensures r[KeyMessage] == e.message
    ensures Strconv.Atoi(r[KeyLevel]) == Some(LogrusToSyslog(e.level))
  {
    Strconv.ItoaRoundTrip(LogrusToSyslog(e.level));
    map[KeyMessage := e.message, KeyLevel := Strconv.Itoa(LogrusToSyslog(e.level))]
  }

  /**
   * The record `Fire` makes of an entry: the message and the level code,
   * overwritten by the hook's extra fields, overwritten by the entry's data.
   */
  function MessageOf(e: Entry, extra: map<string, Value>): (m: Message)
    ensures m.time == e.time
    ensures m.contents.Keys == {KeyMessage, KeyLevel} + extra.Keys + e.data.Keys
    ensures forall k :: k in e.data ==> m.contents[k] == ToString(e.data[k])
    ensures forall k :: k in extra && k !in e.data ==> m.contents[k] == ToString(extra[k])
    ensures KeyMessage !in extra && KeyMessage !in e.data ==> m.contents[KeyMessage] == e.message
    ensures KeyLevel !in extra && KeyLevel !in e.data ==>
              m.contents[KeyLevel] == Strconv.Itoa(LogrusToSyslog(e.level))
  {
    Message(e.time, BaseContents(e) + Stringify(extra) + Stringify(e.data))
  }

  /** The level field of a record can be read back as the syslog code of the entry's level. */
  lemma LevelFieldReadsBack(e: Entry, extra: map<string, Value>)
    requires KeyLevel !in extra && KeyLevel !in e.data
    ensures Strconv.Atoi(MessageOf(e, extra).contents[KeyLevel]) == Some(LogrusToSyslog(e.level))
  {
    Strconv.ItoaRoundTrip(LogrusToSyslog(e.level));
  }

  /** Writing one more field of `m` into a map built from `base` and the fields of `m` outside `todo`. */
  lemma StringifyStep(base: map<string, string>, m: map<string, Value>, todo: set<string>, k: string)
    requires k in todo && todo <= m.Keys
    ensures (base + Stringify(m - todo))[k := ToString(m[k])] == base + Stringify(m - (todo - {k}))
  {
    var lhs := (base + Stringify(m - todo))[k := ToString(m[k])];
    var rhs := base + Stringify(m - (todo - {k}));
    assert lhs.Keys == rhs.Keys;
    forall j | j in lhs ensures lhs[j] == rhs[j] {
      if j != k && j in m - todo {
        assert j in m - (todo - {k});
      }
    }
  }

  /** The first half of `Fire`: the two loops over Go maps, in whatever order the maps yield their keys. */
  method NewMessage(e: Entry, extra: map<string, Value>) returns (m: Message)
    ensures m == MessageOf(e, extra)
  {
    var contents := BaseContents(e);
    var todo := extra.Keys;
    assert extra - todo == map[];
    while todo != {}
      invariant todo <= extra.Keys
      invariant contents == BaseContents(e) + Stringify(extra - todo)
      decreases todo
    {
      var k :| k in todo;
      StringifyStep(BaseContents(e), extra, todo, k);
      contents := contents[k := ToString(extra[k])];
      todo := todo - {k};
    }
    assert extra - todo == extra;
    var withExtra := BaseContents(e) + Stringify(extra);
    todo := e.data.Keys;
    assert e.data - todo == map[];
    while todo != {}
      invariant todo <= e.data.Keys
      invariant contents == withExtra + Stringify(e.data - todo)
      decreases todo
    {
      var k :| k in todo;
      StringifyStep(withExtra, e.data, todo, k);
      contents := contents[k := ToString(e.data[k])];
      todo := todo - {k};
    }
    assert e.data - todo == e.data;
    m := Message(e.time, contents);
  }

  // ---------------------------------------------------------------------
  // The wire format of the remote store

  datatype LogContent = LogContent(key: string, value: string)
  /** A record on the wire: a 32-bit Unix time in seconds and a list of key/value pairs. */
  datatype Log = Log(time: nat, contents: seq<LogContent>)
  datatype LogGroup = LogGroup(topic: string, source: string, logs: seq<Log>)

  /** `uint32(t.Unix())`: whole seconds, rounded down, wrapped to 32 bits. */
  function UnixStamp(ms: int): (r: nat)
    ensures r < 0x1_0000_0000
    ensures 0 <= ms < 0x1_0000_0000 * 1000 ==> r * 1000 <= ms < r * 1000 + 1000
    ensures (ms / 1000 - r) % 0x1_0000_0000 == 0
  {
    (ms / 1000) % 0x1_0000_0000
  }

  function KeysOf(kvs: seq<LogContent>): set<string> {
    set i | 0 <= i < |kvs| :: kvs[i].key
  }

  predicate DistinctKeys(kvs: seq<LogContent>) {
    forall i, j :: 0 <= i < j < |kvs| ==> kvs[i].key != kvs[j].key
  }

  /** The map a list of pairs stands for (a later pair wins, which never matters when keys are distinct). */
  function ContentsMap(kvs: seq<LogContent>): (m: map<string, string>)
    ensures m.Keys == KeysOf(kvs)
  {
    if kvs == [] then map[]
    else
      var init := kvs[..|kvs| - 1];
      assert KeysOf(kvs) == KeysOf(init) + {kvs[|kvs| - 1].key} by {
        forall k | k in KeysOf(kvs) ensures k in KeysOf(init) + {kvs[|kvs| - 1].key} {
          var i :| 0 <= i < |kvs| && kvs[i].key == k;
          if i < |kvs| - 1 { assert init[i] == kvs[i]; }
        }
      }
      ContentsMap(init)[kvs[|kvs| - 1].key := kvs[|kvs| - 1].value]
  }

  /** `kvs` lists every field of `contents` exactly once. */
  predicate EncodesContents(kvs: seq<LogContent>, contents: map<string, string>) {
    DistinctKeys(kvs) && ContentsMap(kvs) == contents
  }

  predicate EncodesLog(l: Log, m: Message) {
    l.time == UnixStamp(m.time) && EncodesContents(l.contents, m.contents)
  }

  /** `logs` are the records of `ms`, one for one and in the same order. */
  predicate EncodesBatch(logs: seq<Log>, ms: seq<Message>) {
    |logs| == |ms| && forall i :: 0 <= i < |ms| ==> EncodesLog(logs[i], ms[i])
  }

  /** With distinct keys, every listed pair is the field of the map it stands for. */
  lemma {:induction false} ContentsMapAt(kvs: seq<LogContent>, i: nat)
    requires DistinctKeys(kvs) && i < |kvs|
    ensures ContentsMap(kvs)[kvs[i].key] == kvs[i].value
    decreases |kvs|
  {
    if i < |kvs| - 1 {
      var init := kvs[..|kvs| - 1];
      assert init[i] == kvs[i];
      ContentsMapAt(init, i);
    }
  }

  /** The loop over `m.Contents` in `Flush`, in whatever order the map yields its keys. */
  method EncodeContents(contents: map<string, string>) returns (kvs: seq<LogContent>)
    ensures EncodesContents(kvs, contents)
  {
    kvs := [];
    var todo := contents.Keys;
    while todo != {}
      invariant todo <= contents.Keys
      invariant DistinctKeys(kvs)
      invariant ContentsMap(kvs) == contents - todo
      decreases todo
    {
      var k :| k in todo;
      assert k !in KeysOf(kvs);
      var next := kvs + [LogContent(k, contents[k])];
      assert next[..|next| - 1] == kvs;
      assert ContentsMap(next) == contents - (todo - {k});
      kvs := next;
      todo := todo - {k};
    }
    assert contents - todo == contents;
  }

  /** The loop of `Flush` that builds one wire record per buffered message. */
  method EncodeBatch(ms: seq<Message>) returns (logs: seq<Log>)
    ensures EncodesBatch(logs, ms)
  {
    logs := [];
    var i := 0;
    while i < |ms|
      invariant 0 <= i <= |ms| && |logs| == i
      invariant forall j :: 0 <= j < i ==> EncodesLog(logs[j], ms[j])
    {
      var kvs := EncodeContents(ms[i].contents);
      logs := logs + [Log(UnixStamp(ms[i].time), kvs)];
      i := i + 1;
    }
  }

  // ---------------------------------------------------------------------
  // Sending: one batch put, then one put per record if the batch fails

  datatype Fallback = Fallback(stored: seq<LogGroup>, discarded: seq<Log>)

  /**
   * The per-record retry of `logs`, the put calls numbered from `first`:
   * an accepted record is stored as a group of its own, a rejected one is discarded.
   */
  function RetryEach(accepts: nat -> bool, first: nat, topic: string, source: string, logs: seq<Log>): (f: Fallback)
    ensures |f.stored| + |f.discarded| == |logs|
    decreases |logs|
  {
    if logs == [] then Fallback([], [])
    else
      var prev := RetryEach(accepts, first, topic, source, logs[..|logs| - 1]);
      var last := logs[|logs| - 1];
      if accepts(first + |logs| - 1) then prev.(stored := prev.stored + [LogGroup(topic, source, [last])])
      else prev.(discarded := prev.discarded + [last])
  }

  /** The number of rejected calls among the `n` calls numbered from `first`. */
  function Failures(accepts: nat -> bool, first: nat, n: nat): nat {
    if n == 0 then 0 else Failures(accepts, first, n - 1) + (if accepts(first + n - 1) then 0 else 1)
  }

  function RecordsOf(groups: seq<LogGroup>): seq<Log> {
    if groups == [] then [] else RecordsOf(groups[..|groups| - 1]) + groups[|groups| - 1].logs
  }

  /** As many records are discarded as per-record calls failed; the others are stored. */
  lemma {:induction false} RetryCounts(accepts: nat -> bool, first: nat, topic: string, source: string, logs: seq<Log>)
    ensures var f := RetryEach(accepts, first, topic, source, logs);
      && |f.discarded| == Failures(accepts, first, |logs|)
      && |f.stored| == |logs| - Failures(accepts, first, |logs|)
    decreases |logs|
  {
    if logs != [] {
      RetryCounts(accepts, first, topic, source, logs[..|logs| - 1]);
    }
  }

  /** Every group the retry stores holds exactly one record and carries the hook's topic and source. */
  lemma {:induction false} RetryStoresSingles(accepts: nat -> bool, first: nat, topic: string, source: string, logs: seq<Log>)
    ensures forall g :: g in RetryEach(accepts, first, topic, source, logs).stored ==>
      g.topic == topic && g.source == source && |g.logs| == 1
    decreases |logs|
  {
    if logs != [] {
      RetryStoresSingles(accepts, first, topic, source, logs[..|logs| - 1]);
    }
  }

  /** No record is lost or duplicated: the stored and the discarded records together are the batch. */
  lemma {:induction false} RetryKeepsEveryRecord(accepts: nat -> bool, first: nat, topic: string, source: string, logs: seq<Log>)
    ensures var f := RetryEach(accepts, first, topic, source, logs);
      multiset(RecordsOf(f.stored)) + multiset(f.discarded) == multiset(logs)
    decreases |logs|
  {
    if logs != [] {
      var init := logs[..|logs| - 1];
      RetryKeepsEveryRecord(accepts, first, topic, source, init);
      var prev := RetryEach(accepts, first, topic, source, init);
      var last := logs[|logs| - 1];
      assert logs == init + [last];
      if accepts(first + |logs| - 1) {
        var stored := prev.stored + [LogGroup(topic, source, [last])];
        assert stored[..|stored| - 1] == prev.stored;
        assert RecordsOf(stored) == RecordsOf(prev.stored) + [last];
      }
    }
  }

  /** The records of `logs` whose put call, numbered from `first`, is accepted (`keep`) or rejected (`!keep`), in batch order. */
  function WithOutcome(accepts: nat -> bool, first: nat, logs: seq<Log>, keep: bool): (r: seq<Log>)
    ensures |r| <= |logs|
    ensures forall l :: l in r ==> l in logs
    decreases |logs|
  {
    if logs == [] then []
    else
      var last := logs[|logs| - 1];
      WithOutcome(accepts, first, logs[..|logs| - 1], keep) + (if accepts(first + |logs| - 1) == keep then [last] else [])
  }

  /**
   * The fallback keeps the order of the batch on both sides: the stored groups
   * hold the accepted records and the discard list the rejected ones, each in
   * batch order.
   */
  lemma {:induction false} RetryOrder(accepts: nat -> bool, first: nat, topic: string, source: string, logs: seq<Log>)
    ensures var f := RetryEach(accepts, first, topic, source, logs);
      && RecordsOf(f.stored) == WithOutcome(accepts, first, logs, true)
      && f.discarded == WithOutcome(accepts, first, logs, false)
    decreases |logs|
  {
    if logs != [] {
      var init := logs[..|logs| - 1];
      RetryOrder(accepts, first, topic, source, init);
      var prev := RetryEach(accepts, first, topic, source, init);
      if accepts(first + |logs| - 1) {
        var stored := prev.stored + [LogGroup(topic, source, [logs[|logs| - 1]])];
        assert stored[..|stored| - 1] == prev.stored;
      }
    }
  }

  /** When every single put succeeds, the stored records are the whole batch in order and nothing is discarded. */
  lemma {:induction false} RetryKeepsOrder(accepts: nat -> bool, first: nat, topic: string, source: string, logs: seq<Log>)
    requires forall k :: first <= k < first + |logs| ==> accepts(k)
    ensures RecordsOf(RetryEach(accepts, first, topic, source, logs).stored) == logs
    ensures RetryEach(accepts, first, topic, source, logs).discarded == []
    decreases |logs|
  {
    if logs != [] {
      var init := logs[..|logs| - 1];
      RetryKeepsOrder(accepts, first, topic, source, init);
      var stored := RetryEach(accepts, first, topic, source, init).stored + [LogGroup(topic, source, [logs[|logs| - 1]])];
      assert stored[..|stored| - 1] == RetryEach(accepts, first, topic, source, init).stored;
      assert logs == init + [logs[|logs| - 1]];
    }
  }

  datatype Outcome = Outcome(stored: seq<LogGroup>, discarded: seq<Log>, calls: nat)

  /** What a flush of `logs` does to the store when its first put call has number `calls`. */
  function Send(accepts: nat -> bool, calls: nat, topic: string, source: string, logs: seq<Log>): (o: Outcome)
    ensures accepts(calls) ==> o == Outcome([LogGroup(topic, source, logs)], [], calls + 1)
    ensures !accepts(calls) ==> o.calls == calls + 1 + |logs| && |o.stored| + |o.discarded| == |logs|
  {
    if accepts(calls) then Outcome([LogGroup(topic, source, logs)], [], calls + 1)
    else
      var f := RetryEach(accepts, calls + 1, topic, source, logs);
      RetryCounts(accepts, calls + 1, topic, source, logs);
      Outcome(f.stored, f.discarded, calls + 1 + |logs|)
  }

  /**
   * A batch of five whose put fails while only the third record's own put
   * fails: four records are stored one by one and the third is discarded.
   */
  lemma FiveRecordsOneRejected(accepts: nat -> bool, calls: nat, topic: string, source: string, logs: seq<Log>)
    requires |logs| == 5
    requires forall k :: accepts(k) <==> k != calls && k != calls + 3
    ensures var o := Send(accepts, calls, topic, source, logs);
      && |o.stored| == 4 && o.discarded == [logs[2]] && o.calls == calls + 6
  {
    var first := calls + 1;
    assert logs[..1][..0] == [];
    assert logs[..2][..1] == logs[..1];
    assert logs[..3][..2] == logs[..2];
    assert logs[..4][..3] == logs[..3];
    assert logs[..5][..4] == logs[..4];
    assert logs[..5] == logs;
    assert RetryEach(accepts, first, topic, source, logs[..1]).discarded == [];
    assert RetryEach(accepts, first, topic, source, logs[..2]).discarded == [];
    assert RetryEach(accepts, first, topic, source, logs[..3]).discarded == [logs[2]];
    assert RetryEach(accepts, first, topic, source, logs[..4]).discarded == [logs[2]];
    assert RetryEach(accepts, first, topic, source, logs[..5]).discarded == [logs[2]];
  }

  // ---------------------------------------------------------------------
  // The flush policy

  /** A flush is due when the buffer is not empty and it is forced, full, or the interval has passed. */
  function ShouldFlush(size: nat, force: bool, elapsed: int): (due: bool)
    ensures size == 0 ==> !due
    ensures size > 0 && (force || size >= BatchSize) ==> due
    ensures size > 0 && elapsed >= FlushInterval ==> due
    ensures !force && size < BatchSize && elapsed < FlushInterval ==> !due
  {
    size > 0 && (force || size >= BatchSize || elapsed >= FlushInterval)
  }

  /** The buffer and the time of the last flush. */
  datatype Buffer = Buffer(messages: seq<Message>, flushTime: int)

  /**
   * What `Fire` does to the buffer: append, then flush if a flush is due at
   * `now`; a flush restarts the interval at `done`, when its puts are over.
   */
  function FireStep(b: Buffer, m: Message, now: int, done: int): (r: Buffer)
    ensures |r.messages| < BatchSize
    ensures r.messages == [] || r.messages == b.messages + [m]
    ensures r.messages == [] ==> r.flushTime == done
    ensures r.messages != [] ==> r.flushTime == b.flushTime
    ensures r.messages == [] <==> ShouldFlush(|b.messages| + 1, false, now - b.flushTime)
  {
    var ms := b.messages + [m];
    if ShouldFlush(|ms|, false, now - b.flushTime) then Buffer([], done) else Buffer(ms, b.flushTime)
  }

  /** An entry fired at `now` whose flush, if any, ends at `done`. */
  datatype Fired = Fired(message: Message, now: int, done: int)

  function Replay(b: Buffer, events: seq<Fired>): Buffer
    decreases |events|
  {
    if events == [] then b
    else
      var last := events[|events| - 1];
      FireStep(Replay(b, events[..|events| - 1]), last.message, last.now, last.done)
  }

  function MessagesOf(events: seq<Fired>): (ms: seq<Message>)
    ensures |ms| == |events| && forall i :: 0 <= i < |events| ==> ms[i] == events[i].message
  {
    seq(|events|, i requires 0 <= i < |events| => events[i].message)
  }

  /** Entries fired within the interval that do not fill the buffer are all kept, in order, and nothing is sent. */
  lemma {:induction false} NoFlushBelowBatchSize(b: Buffer, events: seq<Fired>)
    requires |b.messages| + |events| < BatchSize
    requires forall i :: 0 <= i < |events| ==> events[i].now - b.flushTime < FlushInterval
    ensures Replay(b, events) == Buffer(b.messages + MessagesOf(events), b.flushTime)
    decreases |events|
  {
    if events != [] {
      var init := events[..|events| - 1];
      NoFlushBelowBatchSize(b, init);
      assert MessagesOf(events) == MessagesOf(init) + [events[|events| - 1].message];
    }
  }

  /** The entry that fills the buffer to `BatchSize` flushes it, even within the interval. */
  lemma FlushAtBatchSize(b: Buffer, events: seq<Fired>)
    requires |events| > 0 && |b.messages| + |events| == BatchSize
    requires forall i :: 0 <= i < |events| ==> events[i].now - b.flushTime < FlushInterval
    ensures Replay(b, events) == Buffer([], events[|events| - 1].done)
  {
    NoFlushBelowBatchSize(b, events[..|events| - 1]);
  }

  /** Once the interval has passed, the next entry flushes the buffer together with itself. */
  lemma FlushAfterInterval(b: Buffer, m: Message, now: int, done: int)
    requires now - b.flushTime >= FlushInterval
    ensures FireStep(b, m, now, done) == Buffer([], done)
  {
  }

  // ---------------------------------------------------------------------
  // The remote store and the hook

  /** Stand-in for the SDK's log store: which put calls succeed, how many were made, and what was stored. */
  class LogStore {
    const accepts: nat -> bool
    var calls: nat
    var stored: seq<LogGroup>

    constructor (accepts: nat -> bool)
      ensures this.accepts == accepts && calls == 0 && stored == []
    {
      this.accepts := accepts;
      calls := 0;
      stored := [];
    }

    /** `PutLogs`: `ok` stands for a nil error. */
    method PutLogs(g: LogGroup) returns (ok: bool)
      modifies this
      ensures ok == accepts(old(calls)) && calls == old(calls) + 1
      ensures stored == if ok then old(stored) + [g] else old(stored)
    {
      ok := accepts(calls);
      calls := calls + 1;
      if ok {
        stored := stored + [g];
      }
    }
  }

  function WrapFlushError(err: Option<string>): (r: Option<string>)
    ensures r.None? <==> err.None?
  {
    match err
    case None => None
    case Some(e) => Some("while flush log messages: " + e)
  }

  class LogStoreHook {
    const store: LogStore
    const topic: string
    const source: string
    const extra: map<string, Value>
    var messages: seq<Message>
    var flushTime: int
    /**
     * The records the fallback gave up on. The source keeps no such list: it
     * only logs the put error of each one; the model keeps them to state what was lost.
     */
    ghost var discarded: seq<Log>

    /** `NewLogStoreHook` once the remote project and store are found. */
    constructor (store: LogStore, topic: string, source: string, extra: map<string, Value>, now: int)
      ensures this.store == store && this.topic == topic && this.source == source && this.extra == extra
      ensures messages == [] && flushTime == now && discarded == []
    {
      this.store := store;
      this.topic := topic;
      this.source := source;
      this.extra := extra;
      messages := [];
      flushTime := now;
      discarded := [];
    }

    /** The per-record fallback of `Flush`: one put per record, in order, discarding the records it loses. */
    method RetryEachRecord(logs: seq<Log>)
      modifies this, store
      ensures messages == old(messages) && flushTime == old(flushTime)
      ensures var f := RetryEach(store.accepts, old(store.calls), topic, source, logs);
        && store.calls == old(store.calls) + |logs|
        && store.stored == old(store.stored) + f.stored
        && discarded == old(discarded) + f.discarded
    {
      var j := 0;
      while j < |logs|
        invariant 0 <= j <= |logs|
        invariant messages == old(messages) && flushTime == old(flushTime)
        invariant store.calls == old(store.calls) + j
        invariant var f := RetryEach(store.accepts, old(store.calls), topic, source, logs[..j]);
          store.stored == old(store.stored) + f.stored && discarded == old(discarded) + f.discarded
      {
        assert logs[..j + 1][..j] == logs[..j];
        var ok := store.PutLogs(LogGroup(topic, source, [logs[j]]));
        if !ok {
          discarded := discarded + [logs[j]];
        }
        j := j + 1;
      }
      assert logs[..|logs|] == logs;
    }

    /**
     * Sends the buffer if a flush is due at `now`, and then empties it and
     * restarts the interval at `done`, the clock reading after the puts,
     * whatever the puts answered. `sent` is the batch that was built.
     */
    method Flush(force: bool, now: int, done: int) returns (err: Option<string>, ghost sent: seq<Log>)
      requires now <= done
      modifies this, store
      ensures err == None
      ensures !ShouldFlush(|old(messages)|, force, now - old(flushTime)) ==>
        && messages == old(messages) && flushTime == old(flushTime) && discarded == old(discarded)
        && store.calls == old(store.calls) && store.stored == old(store.stored) && sent == []
      ensures ShouldFlush(|old(messages)|, force, now - old(flushTime)) ==>
        && messages == [] && flushTime == done
        && EncodesBatch(sent, old(messages))
        && var o := Send(store.accepts, old(store.calls), topic, source, sent);
           store.calls == o.calls && store.stored == old(store.stored) + o.stored
           && discarded == old(discarded) + o.discarded
    {
      if |messages| == 0 || (!force && |messages| < BatchSize && now - flushTime < FlushInterval) {
        return None, [];
      }

      var logs := EncodeBatch(messages);
      var lg := LogGroup(topic, source, logs);
      var ok := store.PutLogs(lg);
      if !ok {
        RetryEachRecord(logs);
      }

      flushTime := done;
      messages := [];
      err, sent := None, logs;
    }

    /**
     * Appends the entry's record to the buffer and flushes if a flush is due;
     * the buffer is always below `BatchSize` afterwards.
     */
    method Fire(e: Entry, now: int, done: int) returns (err: Option<string>, ghost sent: seq<Log>)
      requires now <= done
      modifies this, store
      ensures err == None
      ensures |messages| < BatchSize
      ensures Buffer(messages, flushTime) == FireStep(Buffer(old(messages), old(flushTime)), MessageOf(e, extra), now, done)
      ensures var buf := old(messages) + [MessageOf(e, extra)];
        if ShouldFlush(|buf|, false, now - old(flushTime)) then
          && EncodesBatch(sent, buf)
          && var o := Send(store.accepts, old(store.calls), topic, source, sent);
             store.calls == o.calls && store.stored == old(store.stored) + o.stored
             && discarded == old(discarded) + o.discarded
        else
          && sent == [] && discarded == old(discarded)
          && store.calls == old(store.calls) && store.stored == old(store.stored)
    {
      var m := NewMessage(e, extra);
      messages := messages + [m];
      var flushErr;
      flushErr, sent := Flush(false, now, done);
      err := WrapFlushError(flushErr);
    }
  }
}
