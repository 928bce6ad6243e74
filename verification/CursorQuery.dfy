/**
 The restartable cursor query of the accessibility acceptance client (`collect_name_prefix` of
 test-phase5-atspi-live.py).

 The server is an arbitrary function of everything sent to it so far. The clock may run out at any
 look at it and the wait for the accessibility plane may fail. An entry's identity and name are
 extracted by parameters; the warnings check is a flag on the page.
 */
module CursorQuery {
  import opened Wrappers
  import opened FaultInjection
  import opened Uint64Text

  const MAX_CURSOR_QUERY_TRANSACTIONS := 16
  const MAX_CURSOR_QUERY_REQUESTS := 80
  const MAX_CURSOR_QUERY_PAGES := 40
  const MAX_TIMEOUT_SECONDS := 60.0
  const PAGE_LIMIT := 25
  const MIN_CURSOR_BYTES := 16
  const MAX_CURSOR_BYTES := 1024
  const MAX_VISITED_NODES := 25000
  const EXPECTED_ORDER := "name_ascending"

  /** A JSON field that may be null, text or something else. */
  datatype Field = Null | String(text: string) | Malformed

  datatype Page<E> = Page(
    desktopId: Option<string>, desktopGeneration: Option<string>,
    atspiGeneration: Value, snapshotRevision: Value, order: Option<string>, truncated: Option<bool>,
    elements: Option<seq<E>>, visitedNodes: Option<int>, warningsValid: bool, nextCursor: Field,
    problemStatus: Option<int>, code: Option<string>, retry: Option<string>)

  datatype Response<E> = Response(status: int, page: Page<E>, retryAfter: Option<string>)

  /** One request, by the cursor it carried, and its response; `None` when the transport failed. */
  datatype Exchange<E> = Exchange(cursor: Option<string>, response: Option<Response<E>>)

  /** How an entry is read: its identity within a generation and revision, and its name. */
  datatype Reader<!E, I> = Reader(identify: (E, nat, nat) -> Option<I>, nameOf: E -> Option<string>)

  /** The transaction an answer belongs to. */
  datatype Metadata = Metadata(generation: nat, revision: nat)

  datatype Scope = Scope(desktopId: string, desktopGeneration: string)

  datatype Error =
    | BadBudget
    | Exhausted
    | NotRetryable
    | Transport
    | BadPage
    | BadCursor
    | EmptyContinuation
    | TooManyPages

  // ------------------------------------------------------------ retry contracts

  datatype Mode = AfterResync | AfterBackoff

  /** `CURSOR_QUERY_RETRY_CONTRACTS`. */
  function Contract(status: int, code: string, retry: string): Option<Mode> {
    if status == 409 && code == "stale_reference" && retry == "after_resync" then Some(AfterResync)
    else if status == 409 && code == "toolkit_protocol_error" && retry == "after_resync" then Some(AfterResync)
    else if status == 429 && code == "resource_exhausted" && retry == "after_backoff" then Some(AfterBackoff)
    else if status == 503 && code == "capability_unavailable" && retry == "after_backoff" then Some(AfterBackoff)
    else None
  }

  /** `query_retry_mode`. */
  function RetryMode<E>(r: Response<E>): Option<Mode> {
    if r.page.problemStatus != Some(r.status) || r.page.code.None? || r.page.retry.None? then None
    else
      var mode := Contract(r.status, r.page.code.value, r.page.retry.value);
      if mode == Some(AfterBackoff) && r.retryAfter != Some("1") then None
      else if mode == Some(AfterResync) && r.retryAfter.Some? then None
      else mode
  }

  // ------------------------------------------------------------ reading entries

  /** Python's order on strings: by code point, a prefix before its extensions. */
  predicate NotAfter(a: string, b: string) {
    a == [] || (b != [] && (a[0] < b[0] || (a[0] == b[0] && NotAfter(a[1..], b[1..]))))
  }

  lemma {:induction false} NotAfterTransitive(a: string, b: string, c: string)
    requires NotAfter(a, b) && NotAfter(b, c)
    ensures NotAfter(a, c)
  {
    if a != [] && a[0] == b[0] == c[0] {
      NotAfterTransitive(a[1..], b[1..], c[1..]);
    }
  }

  /** The strings agree up to `k`, where the first has the smaller character. */
  predicate Before(a: string, b: string, k: nat) {
    k < |a| && k < |b| && a[..k] == b[..k] && a[k] < b[k]
  }

  lemma SharedFirst(a: string, b: string, k: nat)
    requires Before(a, b, k)
    ensures if k == 0 then a[0] < b[0] else a[0] == b[0] && Before(a[1..], b[1..], k - 1)
  {
    if k > 0 {
      assert a[0] == a[..k][0] && b[0] == b[..k][0];
      assert a[1..][..k - 1] == a[..k][1..] && b[1..][..k - 1] == b[..k][1..];
    }
  }

  lemma SharedLonger(a: string, b: string, k: nat)
    requires a != [] && b != [] && a[0] == b[0] && Before(a[1..], b[1..], k)
    ensures Before(a, b, k + 1)
  {
    assert a[..k + 1] == [a[0]] + a[1..][..k] && b[..k + 1] == [b[0]] + b[1..][..k];
  }

  /** That order spelled out: a prefix, or smaller at the first character where the two differ. */
  lemma {:induction false} NotAfterIff(a: string, b: string)
    ensures NotAfter(a, b) <==> a <= b || exists k: nat :: Before(a, b, k)
  {
    forall k: nat | Before(a, b, k) ensures if k == 0 then a[0] < b[0] else a[0] == b[0] && Before(a[1..], b[1..], k - 1) {
      SharedFirst(a, b, k);
    }
    if a != [] && b != [] {
      if a[0] == b[0] {
        NotAfterIff(a[1..], b[1..]);
        forall k: nat | Before(a[1..], b[1..], k) ensures Before(a, b, k + 1) {
          SharedLonger(a, b, k);
        }
        PrefixIff(a, b);
      } else if a[0] < b[0] {
        assert Before(a, b, 0);
      }
    }
  }

  lemma PrefixIff(a: string, b: string)
    requires a != [] && b != [] && a[0] == b[0]
    ensures a <= b <==> a[1..] <= b[1..]
  {
    assert a == [a[0]] + a[1..] && b == [b[0]] + b[1..];
    if a <= b {
      assert b[1..][..|a| - 1] == b[..|a|][1..];
    }
  }

  /** What a run of entries amounts to: the names, and the state the next entry is read in. */
  datatype Batch<I> = Batch(names: seq<string>, seen: set<I>, previous: Option<string>)

  function ReadEntry<E, I(==)>(
    reader: Reader<E, I>, meta: Metadata, prefix: string, entry: E, seen: set<I>, previous: Option<string>)
    : Option<(I, string)>
  {
    var identity := reader.identify(entry, meta.generation, meta.revision);
    var name := reader.nameOf(entry);
    if identity.None? || identity.value in seen || name.None? || !(prefix <= name.value) then None
    else if previous.Some? && !NotAfter(previous.value, name.value) then None
    else Some((identity.value, name.value))
  }

  /** Reading entries one after the other; `None` as soon as one is refused. */
  function Read<E, I(==)>(
    reader: Reader<E, I>, meta: Metadata, prefix: string, entries: seq<E>, seen: set<I>, previous: Option<string>)
    : Option<Batch<I>>
  {
    if entries == [] then Some(Batch([], seen, previous))
    else
      var front, last := entries[..|entries| - 1], entries[|entries| - 1];
      var batch := Read(reader, meta, prefix, front, seen, previous);
      if batch.None? then None
      else
        var entry := ReadEntry(reader, meta, prefix, last, batch.value.seen, batch.value.previous);
        if entry.None? then None
        else Some(Batch(batch.value.names + [entry.value.1], batch.value.seen + {entry.value.0}, Some(entry.value.1)))
  }

  /** Reading two runs in turn is reading their concatenation. */
  lemma {:induction false} ReadConcat<E, I>(
    reader: Reader<E, I>, meta: Metadata, prefix: string, a: seq<E>, b: seq<E>)
    ensures var first := Read(reader, meta, prefix, a, {}, None);
      var whole := Read(reader, meta, prefix, a + b, {}, None);
      if first.None? then whole.None?
      else
        var second := Read(reader, meta, prefix, b, first.value.seen, first.value.previous);
        if second.None? then whole.None?
        else whole == Some(second.value.(names := first.value.names + second.value.names))
    decreases |b|
  {
    var first := Read(reader, meta, prefix, a, {}, None);
    if b == [] {
      assert a + b == a;
      if first.Some? {
        assert first.value.names + [] == first.value.names;
      }
    } else {
      var front, last := b[..|b| - 1], b[|b| - 1];
      ReadConcat(reader, meta, prefix, a, front);
      assert (a + b)[..|a + b| - 1] == a + front && (a + b)[|a + b| - 1] == last;
      if first.Some? {
        var middle := Read(reader, meta, prefix, front, first.value.seen, first.value.previous);
        if middle.Some? {
          var entry := ReadEntry(reader, meta, prefix, last, middle.value.seen, middle.value.previous);
          if entry.Some? {
            assert first.value.names + (middle.value.names + [entry.value.1])
                == first.value.names + middle.value.names + [entry.value.1];
          }
        }
      }
    }
  }

  ghost predicate Ascending(names: seq<string>) {
    forall i, j :: 0 <= i < j < |names| ==> NotAfter(names[i], names[j])
  }

  /** A result in good order: one name per entry, all with the prefix, ascending, no entry twice. */
  ghost predicate Orderly<E, I>(
    reader: Reader<E, I>, meta: Metadata, prefix: string, entries: seq<E>, names: seq<string>)
  {
    && |names| == |entries|
    && (forall i :: 0 <= i < |entries| ==>
          && reader.nameOf(entries[i]) == Some(names[i])
          && reader.identify(entries[i], meta.generation, meta.revision).Some?
          && prefix <= names[i])
    && Ascending(names)
    && (forall i, j :: 0 <= i < j < |entries| ==>
          reader.identify(entries[i], meta.generation, meta.revision)
          != reader.identify(entries[j], meta.generation, meta.revision))
  }

  /** Whatever was read in full is in good order, and the running state is what it stands for. */
  lemma {:induction false} ReadIsOrderly<E, I>(reader: Reader<E, I>, meta: Metadata, prefix: string, entries: seq<E>)
    requires Read(reader, meta, prefix, entries, {}, None).Some?
    ensures var batch := Read(reader, meta, prefix, entries, {}, None).value;
      && Orderly(reader, meta, prefix, entries, batch.names)
      && batch.previous == (if batch.names == [] then None else Some(batch.names[|batch.names| - 1]))
      && (forall i :: 0 <= i < |entries| ==>
            reader.identify(entries[i], meta.generation, meta.revision).Some?
            && reader.identify(entries[i], meta.generation, meta.revision).value in batch.seen)
    decreases |entries|
  {
    if entries != [] {
      var front, last := entries[..|entries| - 1], entries[|entries| - 1];
      var before := Read(reader, meta, prefix, front, {}, None).value;
      var batch := Read(reader, meta, prefix, entries, {}, None).value;
      ReadIsOrderly(reader, meta, prefix, front);
      var n := |front|;
      assert batch.names == before.names + [batch.names[n]];
      forall i, j | 0 <= i < j < |batch.names| ensures NotAfter(batch.names[i], batch.names[j]) {
        if j < n {
          assert NotAfter(before.names[i], before.names[j]);
        } else if i < n - 1 {
          assert NotAfter(before.names[i], before.names[n - 1]);
          NotAfterTransitive(batch.names[i], batch.names[n - 1], batch.names[n]);
        }
      }
      assert forall i :: 0 <= i < n ==> entries[i] == front[i];
    }
  }

  /** Every identity seen so far is that of an entry read. */
  lemma {:induction false} SeenWasRead<E, I>(reader: Reader<E, I>, meta: Metadata, prefix: string, entries: seq<E>, i: I)
    requires Read(reader, meta, prefix, entries, {}, None).Some?
    requires i in Read(reader, meta, prefix, entries, {}, None).value.seen
    ensures exists k :: 0 <= k < |entries| && reader.identify(entries[k], meta.generation, meta.revision) == Some(i)
    decreases |entries|
  {
    var n := |entries| - 1;
    var front := entries[..n];
    if i in Read(reader, meta, prefix, front, {}, None).value.seen {
      SeenWasRead(reader, meta, prefix, front, i);
      var k :| 0 <= k < |front| && reader.identify(front[k], meta.generation, meta.revision) == Some(i);
      assert entries[k] == front[k];
    } else {
      assert reader.identify(entries[n], meta.generation, meta.revision) == Some(i);
    }
  }

  /** And nothing in good order is refused. */
  lemma {:induction false} OrderlyIsRead<E, I>(
    reader: Reader<E, I>, meta: Metadata, prefix: string, entries: seq<E>, names: seq<string>)
    requires Orderly(reader, meta, prefix, entries, names)
    ensures Read(reader, meta, prefix, entries, {}, None).Some?
    ensures Read(reader, meta, prefix, entries, {}, None).value.names == names
    decreases |entries|
  {
    hide NotAfter;
    if entries != [] {
      var n := |entries| - 1;
      var front, last := entries[..n], entries[n];
      FrontIsOrderly(reader, meta, prefix, entries, names);
      OrderlyIsRead(reader, meta, prefix, front, names[..n]);
      var before := Read(reader, meta, prefix, front, {}, None).value;
      assert n > 0 ==> before.previous == Some(names[n - 1]) && NotAfter(names[n - 1], names[n]) by {
        ReadIsOrderly(reader, meta, prefix, front);
      }
      assert n == 0 ==> before.previous == None by {
        ReadIsOrderly(reader, meta, prefix, front);
      }
      var identity := reader.identify(last, meta.generation, meta.revision);
      assert reader.nameOf(last) == Some(names[n]) && identity.Some? && prefix <= names[n];
      assert identity.value !in before.seen by {
        if identity.value in before.seen {
          SeenWasRead(reader, meta, prefix, front, identity.value);
        }
      }
      hide Orderly;
      assert names == names[..n] + [names[n]];
    }
  }

  lemma FrontIsOrderly<E, I>(
    reader: Reader<E, I>, meta: Metadata, prefix: string, entries: seq<E>, names: seq<string>)
    requires Orderly(reader, meta, prefix, entries, names) && entries != []
    ensures Orderly(reader, meta, prefix, entries[..|entries| - 1], names[..|entries| - 1])
  {
  }

  // ------------------------------------------------------------ pages and transactions

  /** A page of this desktop and transaction, whole, in the order asked for and within the bounds asked for. */
  predicate PageOf<E>(scope: Scope, page: Page<E>, meta: Metadata) {
    && page.desktopId == Some(scope.desktopId) && page.desktopGeneration == Some(scope.desktopGeneration)
    && page.atspiGeneration == Text(Print(meta.generation)) && 1 <= meta.generation <= 0xFFFF_FFFF_FFFF_FFFF
    && page.snapshotRevision == Text(Print(meta.revision)) && 1 <= meta.revision <= 0xFFFF_FFFF_FFFF_FFFF
    && page.order == Some("name_ascending") && page.truncated == Some(false) && page.warningsValid
    && page.elements.Some? && |page.elements.value| <= 25
    && page.visitedNodes.Some? && |page.elements.value| <= page.visitedNodes.value <= 25000
  }

  lemma PageIff<E>(scope: Scope, page: Page<E>, meta: Metadata)
    ensures Sized(page) && Header(scope, page) == Some(meta) <==> PageOf(scope, page, meta)
  {
    hide ByPattern, Print;
    DecodesExactlyCanonicalText(page.atspiGeneration, 1, meta.generation);
    DecodesExactlyCanonicalText(page.snapshotRevision, 1, meta.revision);
  }

  /** The checks on a page before its entries; its transaction. */
  function Header<E>(scope: Scope, page: Page<E>): Option<Metadata> {
    var generation := ByPattern(page.atspiGeneration, 1);
    var revision := ByPattern(page.snapshotRevision, 1);
    if !(page.desktopId == Some(scope.desktopId) && page.desktopGeneration == Some(scope.desktopGeneration)) then None
    else if generation.None? || revision.None? || page.order != Some(EXPECTED_ORDER) then None
    else Some(Metadata(generation.value, revision.value))
  }

  predicate Sized<E>(page: Page<E>) {
    && page.truncated == Some(false)
    && page.elements.Some? && |page.elements.value| <= PAGE_LIMIT
    && page.visitedNodes.Some? && |page.elements.value| <= page.visitedNodes.value <= MAX_VISITED_NODES
    && page.warningsValid
  }

  predicate CursorChar(c: char) {
    'A' <= c <= 'Z' || 'a' <= c <= 'z' || '0' <= c <= '9' || c == '_' || c == '-'
  }

  predicate ValidCursor(text: string) {
    && MIN_CURSOR_BYTES <= |text| <= MAX_CURSOR_BYTES
    && forall i :: 0 <= i < |text| ==> CursorChar(text[i])
  }

  /** 16 to 1024 letters, digits, underscores and hyphens. */
  predicate CursorText(text: string) {
    && 16 <= |text| <= 1024
    && forall c :: c in text ==>
         c == '-' || c == '_' || '0' <= c <= '9' || 'A' <= c <= 'Z' || 'a' <= c <= 'z'
  }

  lemma ValidCursorIff(text: string)
    ensures ValidCursor(text) <==> CursorText(text)
  {
    if CursorText(text) {
      forall i | 0 <= i < |text| ensures CursorChar(text[i]) {
        assert text[i] in text;
      }
    }
  }

  /** The entries a sequence of answered requests brought, in order. */
  function Entries<E>(exchanges: seq<Exchange<E>>): seq<E> {
    if exchanges == [] then []
    else
      var last := exchanges[|exchanges| - 1];
      Entries(exchanges[..|exchanges| - 1])
      + (if last.response.Some? && last.response.value.page.elements.Some?
         then last.response.value.page.elements.value else [])
  }

  predicate Answered<E>(scope: Scope, x: Exchange<E>, meta: Metadata) {
    && x.response.Some? && x.response.value.status == 200
    && Sized(x.response.value.page)
    && Header(scope, x.response.value.page) == Some(meta)
  }

  /** Pages of one transaction, each fetched with the cursor the page before it gave. */
  ghost predicate Pages<E, I>(
    scope: Scope, reader: Reader<E, I>, prefix: string, meta: Metadata, t: seq<Exchange<E>>, batch: Batch<I>)
  {
    && (forall i :: 0 <= i < |t| ==> Answered(scope, t[i], meta))
    && (t != [] ==> t[0].cursor == None)
    && (forall i :: 0 < i < |t| ==>
          t[i].cursor.Some? && t[i - 1].response.value.page.nextCursor == String(t[i].cursor.value))
    && Read(reader, meta, prefix, Entries(t), {}, None) == Some(batch)
  }

  /** A complete transaction: the last page has no continuation. */
  ghost predicate Complete<E, I>(
    scope: Scope, reader: Reader<E, I>, prefix: string, meta: Metadata, t: seq<Exchange<E>>, names: seq<string>)
  {
    && t != []
    && Read(reader, meta, prefix, Entries(t), {}, None).Some?
    && Pages(scope, reader, prefix, meta, t, Read(reader, meta, prefix, Entries(t), {}, None).value)
    && Read(reader, meta, prefix, Entries(t), {}, None).value.names == names
    && t[|t| - 1].response.value.page.nextCursor == Null
  }

  /**
   A complete transaction, spelled out: pages of one desktop, generation and revision, each fetched
   with the cursor of the one before, the last without one, and all their entries in good order.
   */
  lemma CompleteIff<E, I>(
    scope: Scope, reader: Reader<E, I>, prefix: string, meta: Metadata, t: seq<Exchange<E>>, names: seq<string>)
    ensures Complete(scope, reader, prefix, meta, t, names)
       <==> && t != [] && t[0].cursor == None
            && (forall i :: 0 <= i < |t| ==>
                  t[i].response.Some? && t[i].response.value.status == 200
                  && PageOf(scope, t[i].response.value.page, meta))
            && (forall i :: 0 < i < |t| ==>
                  t[i].cursor.Some? && t[i - 1].response.value.page.nextCursor == String(t[i].cursor.value))
            && t[|t| - 1].response.value.page.nextCursor == Null
            && Orderly(reader, meta, prefix, Entries(t), names)
  {
    hide Read, Header, Sized, PageOf, Entries, Orderly;
    forall i | 0 <= i < |t| && t[i].response.Some?
      ensures Answered(scope, t[i], meta)
         <==> t[i].response.value.status == 200 && PageOf(scope, t[i].response.value.page, meta)
    {
      PageIff(scope, t[i].response.value.page, meta);
    }
    if Read(reader, meta, prefix, Entries(t), {}, None).Some? {
      ReadIsOrderly(reader, meta, prefix, Entries(t));
    }
    if Orderly(reader, meta, prefix, Entries(t), names) {
      OrderlyIsRead(reader, meta, prefix, Entries(t), names);
    }
  }

  lemma CompletePages<E, I>(
    scope: Scope, reader: Reader<E, I>, prefix: string, meta: Metadata, log: seq<Exchange<E>>, pages: nat, names: seq<string>)
    requires pages <= |log| && Complete(scope, reader, prefix, meta, log[|log| - pages..], names)
    ensures forall i :: |log| - pages <= i < |log| ==>
              log[i].response.Some? && PageOf(scope, log[i].response.value.page, meta)
  {
    hide PageOf, Complete, Entries, Orderly;
    var t := log[|log| - pages..];
    CompleteIff(scope, reader, prefix, meta, t, names);
    forall i | |log| - pages <= i < |log| ensures log[i] == t[i - (|log| - pages)] {
    }
  }

  /** What a complete transaction yields. */
  lemma CompleteIsOrderly<E, I>(
    scope: Scope, reader: Reader<E, I>, prefix: string, meta: Metadata, t: seq<Exchange<E>>, names: seq<string>)
    requires Complete(scope, reader, prefix, meta, t, names)
    ensures Orderly(reader, meta, prefix, Entries(t), names)
    ensures forall i :: 0 <= i < |t| ==> Header(scope, t[i].response.value.page) == Some(meta)
  {
    ReadIsOrderly(reader, meta, prefix, Entries(t));
  }

  // ------------------------------------------------------------ budgets

  /** Transactions begun: requests without a cursor. */
  function Begun<E>(log: seq<Exchange<E>>): nat {
    if log == [] then 0
    else Begun(log[..|log| - 1]) + (if log[|log| - 1].cursor.None? then 1 else 0)
  }

  /** Requests of the transaction under way. */
  function Underway<E>(log: seq<Exchange<E>>): nat {
    if log == [] then 0
    else if log[|log| - 1].cursor.None? then 1
    else 1 + Underway(log[..|log| - 1])
  }

  /** No transaction ever made more requests than it may fetch pages. */
  ghost predicate PageBudget<E>(log: seq<Exchange<E>>, maxPages: nat) {
    forall k :: 0 <= k <= |log| ==> Underway(log[..k]) <= maxPages
  }

  lemma NothingSent<E>(maxPages: nat)
    ensures Begun<E>([]) == 0 && PageBudget<E>([], maxPages) && InSequence<E>([])
  {
  }

  lemma OneMoreRequest<E>(log: seq<Exchange<E>>, x: Exchange<E>, maxPages: nat)
    requires PageBudget(log, maxPages)
    requires if x.cursor.None? then maxPages >= 1 else Underway(log) < maxPages
    ensures PageBudget(log + [x], maxPages)
    ensures Begun(log + [x]) == Begun(log) + (if x.cursor.None? then 1 else 0)
    ensures Underway(log + [x]) == if x.cursor.None? then 1 else Underway(log) + 1
  {
    var more := log + [x];
    assert more[..|log|] == log;
    forall k | 0 <= k <= |more| ensures Underway(more[..k]) <= maxPages {
      if k <= |log| {
        assert more[..k] == log[..k];
      } else {
        assert more[..k] == more;
      }
    }
  }

  // ------------------------------------------------------------ the conversation

  /** A response that asks for the whole query to be started again: problem, advice and header agree. */
  predicate AsksForRestart<E>(r: Response<E>) {
    && r.page.problemStatus == Some(r.status)
    && (r.status, r.page.code, r.page.retry, r.retryAfter) in {
         (409, Some("stale_reference"), Some("after_resync"), None),
         (409, Some("toolkit_protocol_error"), Some("after_resync"), None),
         (429, Some("resource_exhausted"), Some("after_backoff"), Some("1")),
         (503, Some("capability_unavailable"), Some("after_backoff"), Some("1"))}
  }

  /** A response that has a next page. */
  predicate HasContinuation<E>(r: Response<E>) {
    r.status == 200 && r.page.nextCursor.String? && CursorText(r.page.nextCursor.text)
  }

  /** A request may follow `last`: it continues its page, or restarts because it was asked to. */
  predicate Follows<E>(last: Exchange<E>, cursor: Option<string>) {
    && last.response.Some?
    && if cursor.Some? then
         HasContinuation(last.response.value) && last.response.value.page.nextCursor == String(cursor.value)
       else AsksForRestart(last.response.value)
  }

  /** Every request but the first follows the one before it. */
  ghost predicate InSequence<E>(sent: seq<Exchange<E>>) {
    && (sent != [] ==> sent[0].cursor.None?)
    && forall k :: 0 < k < |sent| ==> Follows(sent[k - 1], sent[k].cursor)
  }

  /** The pages are acceptable as one transaction. */
  ghost predicate Fits<E, I>(scope: Scope, reader: Reader<E, I>, prefix: string, meta: Metadata, t: seq<Exchange<E>>) {
    && (forall i :: 0 <= i < |t| ==> Answered(scope, t[i], meta))
    && Read(reader, meta, prefix, Entries(t), {}, None).Some?
  }

  ghost predicate Misfit<E, I>(scope: Scope, reader: Reader<E, I>, prefix: string, t: seq<Exchange<E>>) {
    forall m :: !Fits(scope, reader, prefix, m, t)
  }

  /** Why a query may give up after these requests; `late` if the clock ran out or a wait failed. */
  ghost predicate Explained<E, I>(
    error: Error, sent: seq<Exchange<E>>, scope: Scope, reader: Reader<E, I>, prefix: string,
    maxTransactions: nat, maxRequests: nat, maxPages: nat, late: bool)
  {
    || (error.Exhausted? && late)
    || (&& sent != []
        && var last := sent[|sent| - 1].response;
           match error
           case Exhausted =>
             && last.Some?
             && (|| (HasContinuation(last.value) && |sent| == maxRequests)
                 || (AsksForRestart(last.value) && (|sent| == maxRequests || Begun(sent) == maxTransactions)))
           case Transport => last.None?
           case NotRetryable => last.Some? && last.value.status != 200 && !AsksForRestart(last.value)
           case BadPage =>
             && Underway(sent) <= |sent|
             && Misfit(scope, reader, prefix, sent[|sent| - Underway(sent)..])
           case BadCursor =>
             && last.Some? && last.value.status == 200 && last.value.page.nextCursor != Null
             && !(last.value.page.nextCursor.String? && CursorText(last.value.page.nextCursor.text))
           case EmptyContinuation => last.Some? && HasContinuation(last.value) && last.value.page.elements == Some([])
           case TooManyPages => last.Some? && HasContinuation(last.value) && Underway(sent) == maxPages
           case _ => false)
  }

  /** Complete, with whatever names it holds. */
  ghost predicate Whole<E, I>(scope: Scope, reader: Reader<E, I>, prefix: string, meta: Metadata, t: seq<Exchange<E>>) {
    && Read(reader, meta, prefix, Entries(t), {}, None).Some?
    && Complete(scope, reader, prefix, meta, t, Read(reader, meta, prefix, Entries(t), {}, None).value.names)
  }

  ghost predicate IsWhole<E, I>(scope: Scope, reader: Reader<E, I>, prefix: string, t: seq<Exchange<E>>) {
    exists meta :: Whole(scope, reader, prefix, meta, t)
  }

  /** The transaction sent last is complete. */
  ghost predicate LastComplete<E, I>(
    scope: Scope, reader: Reader<E, I>, prefix: string, sent: seq<Exchange<E>>)
  {
    Underway(sent) <= |sent| && IsWhole(scope, reader, prefix, sent[|sent| - Underway(sent)..])
  }

  lemma WholeFacts<E, I>(scope: Scope, reader: Reader<E, I>, prefix: string, meta: Metadata, t: seq<Exchange<E>>)
    requires Whole(scope, reader, prefix, meta, t)
    ensures Fits(scope, reader, prefix, meta, t)
    ensures t != [] && Answered(scope, t[|t| - 1], meta) && t[|t| - 1].response.value.page.nextCursor == Null
  {
  }

  lemma CompleteIsWhole<E, I>(
    scope: Scope, reader: Reader<E, I>, prefix: string, meta: Metadata, t: seq<Exchange<E>>, names: seq<string>)
    requires Complete(scope, reader, prefix, meta, t, names)
    ensures Whole(scope, reader, prefix, meta, t)
  {
  }

  /** No explained failure happens on a complete transaction, but by the clock. */
  lemma ExplainedIsIncomplete<E, I>(
    error: Error, sent: seq<Exchange<E>>, scope: Scope, reader: Reader<E, I>, prefix: string,
    maxTransactions: nat, maxRequests: nat, maxPages: nat, late: bool)
    requires Explained(error, sent, scope, reader, prefix, maxTransactions, maxRequests, maxPages, late)
    requires !(error.Exhausted? && late)
    ensures !LastComplete(scope, reader, prefix, sent)
  {
    hide Read, Entries, Header, Sized, CursorText, Underway, Begun, Whole, Fits;
    if LastComplete(scope, reader, prefix, sent) {
      var meta :| Whole(scope, reader, prefix, meta, sent[|sent| - Underway(sent)..]);
      WholeFacts(scope, reader, prefix, meta, sent[|sent| - Underway(sent)..]);
    }
  }

  /** A page that was answered and then refused explains the failure. */
  lemma ExplainedByPage<E, I>(
    error: Error, sent: seq<Exchange<E>>, answer: Response<E>, scope: Scope, reader: Reader<E, I>, prefix: string,
    maxTransactions: nat, maxRequests: nat, maxPages: nat)
    requires sent != [] && sent[|sent| - 1].response == Some(answer) && answer.status == 200
    requires
      || (error.BadPage? && Underway(sent) <= |sent| && Misfit(scope, reader, prefix, sent[|sent| - Underway(sent)..]))
      || (error.BadCursor? && answer.page.nextCursor != Null
          && !(answer.page.nextCursor.String? && CursorText(answer.page.nextCursor.text)))
      || (error.EmptyContinuation? && HasContinuation(answer) && answer.page.elements == Some([]))
      || (error.TooManyPages? && HasContinuation(answer) && Underway(sent) == maxPages)
    ensures Explained(error, sent, scope, reader, prefix, maxTransactions, maxRequests, maxPages, false)
  {
  }

  lemma OneMoreInSequence<E>(sent: seq<Exchange<E>>, x: Exchange<E>)
    requires InSequence(sent)
    requires if sent == [] then x.cursor.None? else Follows(sent[|sent| - 1], x.cursor)
    ensures InSequence(sent + [x])
  {
    var more := sent + [x];
    forall k | 0 < k < |more| ensures Follows(more[k - 1], more[k].cursor) {
      assert k < |sent| ==> Follows(sent[k - 1], sent[k].cursor);
    }
  }

  lemma Suffixes<E>(log: seq<Exchange<E>>, x: Exchange<E>, base: nat, start: nat)
    requires base <= start <= |log|
    ensures (log + [x])[start..] == log[start..] + [x]
    ensures (log + [x])[base..][start - base..] == log[start..] + [x]
    ensures |(log + [x])[base..]| == |log| + 1 - base
    ensures (log + [x])[start..|log|] == log[start..]
  {
  }

  lemma Continues<E>(last: Exchange<E>, answer: Response<E>)
    requires last.response == Some(answer) && HasContinuation(answer)
    ensures Follows(last, Some(answer.page.nextCursor.text))
  {
  }

  /** The retry table and its header tests accept exactly the responses that ask for a restart. */
  lemma RetriedIffAsked<E>(r: Response<E>)
    ensures RetryMode(r).Some? <==> AsksForRestart(r)
  {
  }

  /** A page refused after these fits no transaction with them. */
  lemma RefusedPage<E, I>(
    scope: Scope, reader: Reader<E, I>, prefix: string, meta: Metadata, t: seq<Exchange<E>>, batch: Batch<I>,
    x: Exchange<E>, metadata: Option<Metadata>)
    requires Pages(scope, reader, prefix, meta, t, batch) && x.response.Some?
    requires if t == [] then metadata == None && batch == Batch([], {}, None) else metadata == Some(meta)
    requires var page := x.response.value.page;
      !(&& Header(scope, page).Some?
        && (metadata.Some? ==> metadata == Header(scope, page))
        && Sized(page)
        && Read(reader, Header(scope, page).value, prefix, page.elements.value, batch.seen, batch.previous).Some?)
    ensures Misfit(scope, reader, prefix, t + [x])
  {
    hide Read, Header;
    var longer := t + [x];
    forall m ensures !Fits(scope, reader, prefix, m, longer) {
      if Fits(scope, reader, prefix, m, longer) {
        assert Answered(scope, longer[|t|], m) && longer[..|t|] == t;
        if t != [] {
          assert Answered(scope, longer[0], m) && Answered(scope, t[0], meta);
        } else {
          ReadNothing(reader, m, prefix, Entries(t), {}, None);
          assert Entries(t)[..0] == Entries(t);
        }
        assert Entries(longer) == Entries(t) + x.response.value.page.elements.value;
        ReadConcat(reader, m, prefix, Entries(t), x.response.value.page.elements.value);
      }
    }
  }

  // ------------------------------------------------------------ the client

  /** One more page of a transaction. */
  lemma PagesGrow<E, I>(
    scope: Scope, reader: Reader<E, I>, prefix: string, meta: Metadata,
    t: seq<Exchange<E>>, batch: Batch<I>, x: Exchange<E>, more: Batch<I>)
    requires Pages(scope, reader, prefix, meta, t, batch) && Answered(scope, x, meta)
    requires if t == [] then x.cursor == None
             else x.cursor.Some? && Follows(t[|t| - 1], x.cursor)
    requires Read(reader, meta, prefix, x.response.value.page.elements.value, batch.seen, batch.previous) == Some(more)
    ensures Pages(scope, reader, prefix, meta, t + [x], more.(names := batch.names + more.names))
  {
    hide Read, Header;
    var longer := t + [x];
    assert longer[..|t|] == t && longer[|t|] == x;
    ReadConcat(reader, meta, prefix, Entries(t), x.response.value.page.elements.value);
    assert Entries(longer) == Entries(t) + x.response.value.page.elements.value;
  }

  lemma NoPages<E, I>(scope: Scope, reader: Reader<E, I>, prefix: string, meta: Metadata)
    ensures Pages(scope, reader, prefix, meta, [], Batch([], {}, None))
  {
  }

  /** Reading a run and then one entry more. */
  lemma ReadOneMore<E, I>(
    reader: Reader<E, I>, meta: Metadata, prefix: string, entries: seq<E>, k: nat, seen: set<I>, previous: Option<string>)
    requires k < |entries|
    ensures Read(reader, meta, prefix, entries[..k + 1], seen, previous)
         == var batch := Read(reader, meta, prefix, entries[..k], seen, previous);
            if batch.None? then None
            else
              var entry := ReadEntry(reader, meta, prefix, entries[k], batch.value.seen, batch.value.previous);
              if entry.None? then None
              else Some(Batch(batch.value.names + [entry.value.1],
                              batch.value.seen + {entry.value.0}, Some(entry.value.1)))
  {
    assert entries[..k + 1][..k] == entries[..k] && entries[..k + 1][k] == entries[k];
  }

  /** Every entry read gives one name. */
  lemma {:induction false} ReadCounts<E, I>(
    reader: Reader<E, I>, meta: Metadata, prefix: string, entries: seq<E>, seen: set<I>, previous: Option<string>)
    requires Read(reader, meta, prefix, entries, seen, previous).Some?
    ensures |Read(reader, meta, prefix, entries, seen, previous).value.names| == |entries|
    decreases |entries|
  {
    if entries != [] {
      ReadCounts(reader, meta, prefix, entries[..|entries| - 1], seen, previous);
    }
  }

  /** A refused entry spoils every longer run. */
  lemma {:induction false} RefusedStays<E, I>(
    reader: Reader<E, I>, meta: Metadata, prefix: string, entries: seq<E>, k: nat, seen: set<I>, previous: Option<string>)
    requires k <= |entries| && Read(reader, meta, prefix, entries[..k], seen, previous).None?
    ensures Read(reader, meta, prefix, entries, seen, previous).None?
    decreases |entries| - k
  {
    if k < |entries| {
      ReadOneMore(reader, meta, prefix, entries, k, seen, previous);
      RefusedStays(reader, meta, prefix, entries, k + 1, seen, previous);
    } else {
      assert entries[..k] == entries;
    }
  }

  /** What one request of a transaction comes to. */
  datatype Asked<E> = Answer(response: Response<E>) | ToldToRestart(response: Response<E>) | GaveUp(error: Error)

  /** How far a transaction has come: the next cursor, the pages read and what they amount to. */
  datatype Progress<I> = Progress(cursor: Option<string>, pages: nat, metadata: Option<Metadata>, batch: Batch<I>)

  /** What one request and its page lead to. */
  datatype Step<I> =
    | Onward(progress: Progress<I>)
    | Restart
    | Finished(names: seq<string>, pages: nat)
    | Ended(error: Error)

  /** A transaction begun at `start` of the log has come so far. */
  ghost predicate Going<E, I>(
    scope: Scope, reader: Reader<E, I>, log: seq<Exchange<E>>, p: Progress<I>, prefix: string,
    transaction: nat, requests: nat, maxRequests: nat, maxPages: nat, base: nat, start: nat, meta: Metadata)
  {
    && |log| == base + requests == start + p.pages && base <= start && requests <= maxRequests && p.pages < maxPages
    && PageBudget(log[base..], maxPages) && InSequence(log[base..])
    && Begun(log[base..]) == (if p.pages == 0 then transaction - 1 else transaction)
    && (requests > 0 ==> Follows(log[|log| - 1], p.cursor))
    && Pages(scope, reader, prefix, meta, log[start..], p.batch)
    && (if p.pages == 0 then p == Progress(None, 0, None, Batch([], {}, None))
        else p.cursor.Some? && p.metadata == Some(meta) && Underway(log[base..]) == p.pages)
  }

  /** The answer to the request for the next page has arrived. */
  ghost predicate Arrived<E, I>(
    scope: Scope, reader: Reader<E, I>, log: seq<Exchange<E>>, p: Progress<I>, answer: Response<E>, prefix: string,
    transaction: nat, requests: nat, maxRequests: nat, maxPages: nat, base: nat, start: nat, meta: Metadata)
  {
    && |log| == base + requests == start + p.pages + 1 && base <= start && requests <= maxRequests && p.pages < maxPages
    && PageBudget(log[base..], maxPages) && InSequence(log[base..])
    && Begun(log[base..]) == transaction && Underway(log[base..]) == p.pages + 1
    && answer.status == 200 && log[|log| - 1] == Exchange(p.cursor, Some(answer))
    && log[base..][start - base..] == log[start..] && log[start..] == log[start..|log| - 1] + [log[|log| - 1]]
    && Pages(scope, reader, prefix, meta, log[start..|log| - 1], p.batch)
    && (if p.pages == 0 then p == Progress(None, 0, None, Batch([], {}, None))
        else p.cursor.Some? && p.metadata == Some(meta) && Follows(log[|log| - 2], p.cursor))
  }

  lemma GoingBounds<E, I>(
    scope: Scope, reader: Reader<E, I>, log: seq<Exchange<E>>, p: Progress<I>, prefix: string,
    transaction: nat, requests: nat, maxRequests: nat, maxPages: nat, base: nat, start: nat, meta: Metadata)
    requires Going(scope, reader, log, p, prefix, transaction, requests, maxRequests, maxPages, base, start, meta)
    ensures requests <= maxRequests
  {
  }

  /** What the next request of a transaction may rely on. */
  lemma GoingAllows<E, I>(
    scope: Scope, reader: Reader<E, I>, log: seq<Exchange<E>>, p: Progress<I>, prefix: string,
    transaction: nat, requests: nat, maxRequests: nat, maxPages: nat, base: nat, start: nat, meta: Metadata)
    requires Going(scope, reader, log, p, prefix, transaction, requests, maxRequests, maxPages, base, start, meta)
    requires transaction >= 1
    ensures requests <= maxRequests && |log| == base + requests
    ensures PageBudget(log[base..], maxPages) && InSequence(log[base..])
    ensures if p.cursor.None? then 1 <= maxPages else Underway(log[base..]) < maxPages
    ensures if requests == 0 then p.cursor.None? else Follows(log[|log| - 1], p.cursor)
    ensures Begun(log[base..]) + (if p.cursor.None? then 1 else 0) == transaction
  {
    hide Pages, PageBudget, Underway, Begun, InSequence, Follows;
  }

  lemma GoingArrives<E, I>(
    scope: Scope, reader: Reader<E, I>, log: seq<Exchange<E>>, p: Progress<I>, prefix: string,
    transaction: nat, requests: nat, maxRequests: nat, maxPages: nat, base: nat, start: nat, meta: Metadata, answer: Response<E>)
    requires Going(scope, reader, log, p, prefix, transaction, requests, maxRequests, maxPages, base, start, meta)
    requires transaction >= 1 && requests < maxRequests && answer.status == 200
    requires var longer := log + [Exchange(p.cursor, Some(answer))];
      && PageBudget(longer[base..], maxPages) && InSequence(longer[base..]) && Begun(longer[base..]) == transaction
      && Underway(longer[base..]) == if p.cursor.None? then 1 else Underway(log[base..]) + 1
    ensures Arrived(scope, reader, log + [Exchange(p.cursor, Some(answer))], p, answer, prefix,
                    transaction, requests + 1, maxRequests, maxPages, base, start, meta)
  {
    hide Pages, PageBudget, Underway, Begun, InSequence, Follows;
    Suffixes(log, Exchange(p.cursor, Some(answer)), base, start);
  }

  class ApiClient<!E, I(==)> {
    const scope: Scope
    const reader: Reader<E, I>
    const server: (seq<Exchange<E>>, Option<string>) -> Option<Response<E>>
    const clock: Faults
    var log: seq<Exchange<E>>

    constructor (
      scope: Scope, reader: Reader<E, I>, server: (seq<Exchange<E>>, Option<string>) -> Option<Response<E>>,
      clock: Faults)
      ensures this.scope == scope && this.reader == reader && this.server == server && this.clock == clock
      ensures log == []
    {
      this.scope := scope;
      this.reader := reader;
      this.server := server;
      this.clock := clock;
      log := [];
    }

    /** One request: whatever the server makes of everything it has been sent. */
    method Request(cursor: Option<string>) returns (response: Option<Response<E>>)
      modifies this
      ensures log == old(log) + [Exchange(cursor, response)]
      ensures response == server(old(log), cursor)
    {
      response := server(log, cursor);
      log := log + [Exchange(cursor, response)];
    }

    /** `require_cursor_query_page`. */
    method RequirePage(
      page: Page<E>, prefix: string, metadata: Option<Metadata>, seen: set<I>, previous: Option<string>)
      returns (r: Result<(Metadata, Batch<I>), Error>)
      ensures r.Success? <==>
        && Header(scope, page).Some?
        && (metadata.Some? ==> metadata == Header(scope, page))
        && Sized(page)
        && Read(reader, Header(scope, page).value, prefix, page.elements.value, seen, previous).Some?
      ensures r.Success? ==>
        && Header(scope, page) == Some(r.value.0)
        && Read(reader, r.value.0, prefix, page.elements.value, seen, previous) == Some(r.value.1)
        && page.elements.Some? && |r.value.1.names| == |page.elements.value|
      ensures r.Failure? ==> r.error == BadPage
    {
      hide Read, ReadEntry;
      var current := Header(scope, page);
      if current.None? {
        return Failure(BadPage);
      }
      var meta := current.value;
      if metadata.Some? && metadata.value != meta {
        return Failure(BadPage);
      }
      if !Sized(page) {
        return Failure(BadPage);
      }
      var entries := page.elements.value;
      var names: seq<string> := [];
      var known, latest := seen, previous;
      ReadNothing(reader, meta, prefix, entries, seen, previous);
      for k := 0 to |entries|
        invariant Read(reader, meta, prefix, entries[..k], seen, previous) == Some(Batch(names, known, latest))
      {
        ReadOneMore(reader, meta, prefix, entries, k, seen, previous);
        var entry := ReadEntry(reader, meta, prefix, entries[k], known, latest);
        if entry.None? {
          RefusedStays(reader, meta, prefix, entries, k + 1, seen, previous);
          return Failure(BadPage);
        }
        known := known + {entry.value.0};
        latest := Some(entry.value.1);
        names := names + [entry.value.1];
      }
      assert entries[..|entries|] == entries;
      ReadCounts(reader, meta, prefix, entries, seen, previous);
      return Success((meta, Batch(names, known, latest)));
    }

    /**
     `collect_name_prefix`: for every server, the requests, transactions and pages stay within
     their budgets, every request continues the page before it or restarts because it was asked
     to, the end of the outer loop is never reached, what is returned is one complete transaction,
     and a failure has its reason in what was received or in the clock.  While the clock allows, the
     query succeeds exactly when the transaction it sent last is complete.
     */
    method CollectNamePrefix(prefix: string, timeout: real, maxTransactions: int, maxRequests: int, maxPages: int)
      returns (r: Result<(seq<string>, nat), Error>, ghost meta: Metadata)
      modifies this, clock
      ensures old(log) <= log
      ensures r == Failure(BadBudget) <==>
        !(&& 0.0 < timeout <= MAX_TIMEOUT_SECONDS
          && 1 <= maxTransactions <= MAX_CURSOR_QUERY_TRANSACTIONS
          && 1 <= maxRequests <= MAX_CURSOR_QUERY_REQUESTS
          && 1 <= maxPages <= MAX_CURSOR_QUERY_PAGES)
      ensures r == Failure(BadBudget) ==> log == old(log)
      ensures r != Failure(BadBudget) ==>
        var sent := log[|old(log)|..];
        && |sent| <= maxRequests && Begun(sent) <= maxTransactions && PageBudget(sent, maxPages)
        && InSequence(sent)
        && (r.Success? ==> LastComplete(scope, reader, prefix, sent))
        && (clock.count == old(clock.count) ==> (r.Success? <==> LastComplete(scope, reader, prefix, sent)))
      ensures r.Failure? && r.error != BadBudget ==>
        Explained(r.error, log[|old(log)|..], scope, reader, prefix, maxTransactions, maxRequests, maxPages,
                  clock.count > old(clock.count))
      ensures r.Success? ==>
        && 1 <= r.value.1 <= |log| - |old(log)| && r.value.1 <= maxPages
        && Complete(scope, reader, prefix, meta, log[|log| - r.value.1..], r.value.0)
        && Orderly(reader, meta, prefix, Entries(log[|log| - r.value.1..]), r.value.0)
        && forall i :: |log| - r.value.1 <= i < |log| ==>
             log[i].response.Some? && PageOf(scope, log[i].response.value.page, meta)
    {
      hide PageOf;
      hide Complete, Whole, Orderly, Entries, PageBudget, Begun, Underway, InSequence, Explained, Follows;
      meta := Metadata(0, 0);
      if !(0.0 < timeout <= MAX_TIMEOUT_SECONDS)
         || !(1 <= maxTransactions <= MAX_CURSOR_QUERY_TRANSACTIONS)
         || !(1 <= maxRequests <= MAX_CURSOR_QUERY_REQUESTS)
         || !(1 <= maxPages <= MAX_CURSOR_QUERY_PAGES) {
        return Failure(BadBudget), meta;
      }
      ghost var base := |log|;
      var transaction, requests := 1, 0;
      assert log[base..] == [];
      NothingSent<E>(maxPages);
      while transaction <= maxTransactions
        invariant old(log) <= log && base == |old(log)| && |log| == base + requests
        invariant requests <= maxRequests
        invariant 1 <= transaction <= maxTransactions
        invariant Begun(log[base..]) == transaction - 1
        invariant PageBudget(log[base..], maxPages) && InSequence(log[base..])
        invariant requests > 0 ==> Follows(log[|log| - 1], None)
        invariant clock.count == old(clock.count)
        decreases maxTransactions - transaction
      {
        var restart;
        r, restart, requests, meta := Transaction(prefix, transaction, maxTransactions, requests, maxRequests, maxPages, base);
        if !restart {
          if r.Success? {
            CompleteIsWhole(scope, reader, prefix, meta, log[|log| - r.value.1..], r.value.0);
            CompletePages(scope, reader, prefix, meta, log, r.value.1, r.value.0);
            assert log[base..][|log[base..]| - r.value.1..] == log[|log| - r.value.1..];
          } else if !(r.error.Exhausted? && clock.count > old(clock.count)) {
            ExplainedIsIncomplete(r.error, log[base..], scope, reader, prefix, maxTransactions, maxRequests, maxPages,
                                  clock.count > old(clock.count));
          }
          return r, meta;
        }
        transaction := transaction + 1;
      }
      assert false;
    }

    /** One request of a transaction: its answer, or the end of the transaction. */
    method Ask(
      cursor: Option<string>, ghost prefix: string, transaction: nat, maxTransactions: nat, requestsBefore: nat,
      maxRequests: nat, ghost maxPages: nat, ghost base: nat)
      returns (asked: Asked<E>, requests: nat)
      requires 1 <= transaction <= maxTransactions && requestsBefore <= maxRequests && 1 <= maxRequests
      requires |log| == base + requestsBefore && PageBudget(log[base..], maxPages) && InSequence(log[base..])
      requires if cursor.None? then 1 <= maxPages else Underway(log[base..]) < maxPages
      requires if requestsBefore == 0 then cursor.None? else Follows(log[|log| - 1], cursor)
      requires Begun(log[base..]) + (if cursor.None? then 1 else 0) == transaction
      modifies this, clock
      ensures old(log) <= log && |log| == base + requests && requests <= maxRequests
      ensures PageBudget(log[base..], maxPages) && InSequence(log[base..]) && Begun(log[base..]) <= transaction
      ensures asked.GaveUp? ==>
        && asked.error != BadBudget
        && Explained(asked.error, log[base..], scope, reader, prefix, maxTransactions, maxRequests, maxPages,
                     clock.count > old(clock.count))
      ensures !asked.GaveUp? ==>
        && requests == requestsBefore + 1 && log == old(log) + [Exchange(cursor, Some(asked.response))]
        && clock.count == old(clock.count) && Begun(log[base..]) == transaction
        && Underway(log[base..]) == if cursor.None? then 1 else old(Underway(log[base..])) + 1
      ensures asked.Answer? ==> asked.response.status == 200
      ensures asked.ToldToRestart? ==> transaction < maxTransactions && Follows(log[|log| - 1], None)
    {
      hide PageBudget, InSequence, Underway, Begun, RetryMode, AsksForRestart, HasContinuation;
      requests := requestsBefore;
      var expired := clock.Trips();
      if expired || requests >= maxRequests {
        return GaveUp(Exhausted), requests;
      }
      ghost var sent := log[base..];
      var response := Request(cursor);
      requests := requests + 1;
      ghost var x := Exchange(cursor, response);
      assert log[base..] == sent + [x];
      OneMoreRequest(sent, x, maxPages);
      OneMoreInSequence(sent, x);
      if response.None? {
        return GaveUp(Transport), requests;
      }
      expired := clock.Trips();
      if expired {
        return GaveUp(Exhausted), requests;
      }
      var answer := response.value;
      if answer.status == 200 {
        return Answer(answer), requests;
      }
      var mode := RetryMode(answer);
      RetriedIffAsked(answer);
      if mode.None? {
        return GaveUp(NotRetryable), requests;
      }
      if transaction >= maxTransactions || requests >= maxRequests {
        return GaveUp(Exhausted), requests;
      }
      var unready := clock.Trips();
      if unready {
        return GaveUp(Exhausted), requests;
      }
      return ToldToRestart(answer), requests;
    }

    /** One page of a transaction: what it adds and how the query goes on, or why it cannot. */
    method TakePage(
      answer: Response<E>, prefix: string, metadata: Option<Metadata>, batch: Batch<I>, pages: nat, maxPages: nat,
      ghost sent: seq<Exchange<E>>, ghost t: seq<Exchange<E>>, ghost x: Exchange<E>, ghost meta: Metadata,
      ghost maxTransactions: nat, ghost maxRequests: nat)
      returns (r: Result<(Option<string>, Metadata, Batch<I>), Error>)
      requires x.response == Some(answer) && answer.status == 200 && pages < maxPages
      requires Pages(scope, reader, prefix, meta, t, batch) && |t| == pages
      requires if t == [] then x.cursor == None && metadata == None && batch == Batch([], {}, None)
               else x.cursor.Some? && Follows(t[|t| - 1], x.cursor) && metadata == Some(meta)
      requires |t| + 1 == Underway(sent) <= |sent| && sent[|sent| - (|t| + 1)..] == t + [x]
      ensures r.Success? ==>
        && Pages(scope, reader, prefix, r.value.1, t + [x], r.value.2)
        && Answered(scope, x, r.value.1)
        && (r.value.0.None? ==> answer.page.nextCursor == Null)
        && (r.value.0.Some? ==> pages + 1 < maxPages && Follows(x, r.value.0))
      ensures r.Failure? ==>
        && r.error != BadBudget
        && Explained(r.error, sent, scope, reader, prefix, maxTransactions, maxRequests, maxPages, false)
    {
      hide Header, Sized, Read, Pages, Misfit, Explained, Follows, Underway, ValidCursor, CursorText;
      assert sent[|sent| - 1] == (t + [x])[|t|] == x;
      var checked := RequirePage(answer.page, prefix, metadata, batch.seen, batch.previous);
      if checked.Failure? {
        RefusedPage(scope, reader, prefix, meta, t, batch, x, metadata);
        ExplainedByPage(BadPage, sent, answer, scope, reader, prefix, maxTransactions, maxRequests, maxPages);
        return Failure(BadPage);
      }
      var (current, page) := checked.value;
      if t == [] {
        NoPages(scope, reader, prefix, current);
      }
      PagesGrow(scope, reader, prefix, current, t, batch, x, page);
      var more := page.(names := batch.names + page.names);
      if answer.page.nextCursor == Null {
        return Success((None, current, more));
      }
      if answer.page.nextCursor.String? {
        ValidCursorIff(answer.page.nextCursor.text);
      }
      if !(answer.page.nextCursor.String? && ValidCursor(answer.page.nextCursor.text)) {
        ExplainedByPage(BadCursor, sent, answer, scope, reader, prefix, maxTransactions, maxRequests, maxPages);
        return Failure(BadCursor);
      }
      if page.names == [] {
        ExplainedByPage(EmptyContinuation, sent, answer, scope, reader, prefix, maxTransactions, maxRequests, maxPages);
        return Failure(EmptyContinuation);
      }
      if pages + 1 >= maxPages {
        ExplainedByPage(TooManyPages, sent, answer, scope, reader, prefix, maxTransactions, maxRequests, maxPages);
        return Failure(TooManyPages);
      }
      Continues(x, answer);
      return Success((Some(answer.page.nextCursor.text), current, more));
    }

    /** One request and the page it brings. */
    method Advance(
      p: Progress<I>, prefix: string, transaction: nat, maxTransactions: nat, requestsBefore: nat, maxRequests: nat,
      maxPages: nat, ghost base: nat, ghost start: nat, ghost metaBefore: Metadata)
      returns (step: Step<I>, requests: nat, ghost meta: Metadata)
      requires 1 <= transaction <= maxTransactions && 1 <= maxRequests
      requires Going(scope, reader, log, p, prefix, transaction, requestsBefore, maxRequests, maxPages, base, start, metaBefore)
      modifies this, clock
      ensures old(log) <= log && |log| == base + requests && requests <= maxRequests
      ensures PageBudget(log[base..], maxPages) && InSequence(log[base..]) && Begun(log[base..]) <= transaction
      ensures step.Onward? ==>
        && requests == requestsBefore + 1 && clock.count == old(clock.count)
        && Going(scope, reader, log, step.progress, prefix, transaction, requests, maxRequests, maxPages, base, start, meta)
      ensures step.Restart? ==>
        && transaction < maxTransactions && Begun(log[base..]) == transaction && clock.count == old(clock.count)
        && requests > 0 && Follows(log[|log| - 1], None)
      ensures step.Finished? ==>
        && 1 <= step.pages <= requests && step.pages <= maxPages && step.pages == Underway(log[base..])
        && Complete(scope, reader, prefix, meta, log[|log| - step.pages..], step.names)
        && Orderly(reader, meta, prefix, Entries(log[|log| - step.pages..]), step.names)
      ensures step.Ended? ==>
        && step.error != BadBudget
        && Explained(step.error, log[base..], scope, reader, prefix, maxTransactions, maxRequests, maxPages,
                     clock.count > old(clock.count))
    {
      hide Pages, Entries, Orderly, PageBudget, Underway, Begun, InSequence, Misfit, Complete, Explained, Follows;
      hide Going, Arrived;
      meta := metaBefore;
      ghost var before := log;
      GoingAllows(scope, reader, log, p, prefix, transaction, requestsBefore, maxRequests, maxPages, base, start, meta);
      var asked;
      asked, requests := Ask(p.cursor, prefix, transaction, maxTransactions, requestsBefore, maxRequests, maxPages, base);
      if asked.GaveUp? {
        return Ended(asked.error), requests, meta;
      }
      if asked.ToldToRestart? {
        return Restart, requests, meta;
      }
      GoingArrives(scope, reader, before, p, prefix, transaction, requestsBefore, maxRequests, maxPages, base, start, meta,
                   asked.response);
      step, meta := Accept(p, asked.response, prefix, transaction, requests, maxTransactions, maxRequests, maxPages,
                           base, start, metaBefore);
    }

    /** The page in that answer. */
    method Accept(
      p: Progress<I>, answer: Response<E>, prefix: string, ghost transaction: nat, ghost requests: nat,
      ghost maxTransactions: nat, ghost maxRequests: nat, maxPages: nat, ghost base: nat, ghost start: nat,
      ghost metaBefore: Metadata)
      returns (step: Step<I>, ghost meta: Metadata)
      requires Arrived(scope, reader, log, p, answer, prefix, transaction, requests, maxRequests, maxPages, base, start, metaBefore)
      ensures !step.Restart?
      ensures step.Onward? ==>
        Going(scope, reader, log, step.progress, prefix, transaction, requests, maxRequests, maxPages, base, start, meta)
      ensures step.Finished? ==>
        && 1 <= step.pages <= requests && step.pages <= maxPages && step.pages == Underway(log[base..])
        && Complete(scope, reader, prefix, meta, log[|log| - step.pages..], step.names)
        && Orderly(reader, meta, prefix, Entries(log[|log| - step.pages..]), step.names)
      ensures step.Ended? ==>
        && step.error != BadBudget
        && Explained(step.error, log[base..], scope, reader, prefix, maxTransactions, maxRequests, maxPages, false)
    {
      hide Pages, Entries, Orderly, PageBudget, Underway, Begun, InSequence, Misfit, Complete, Explained, Follows;
      meta := metaBefore;
      ghost var t, x := log[start..|log| - 1], log[|log| - 1];
      var taken := TakePage(answer, prefix, p.metadata, p.batch, p.pages, maxPages,
                            log[base..], t, x, meta, maxTransactions, maxRequests);
      if taken.Failure? {
        return Ended(taken.error), meta;
      }
      var (cursor, current, batch) := taken.value;
      meta := current;
      if cursor.None? {
        FinishTransaction(scope, reader, prefix, meta, log[start..], batch);
        return Finished(batch.names, p.pages + 1), meta;
      }
      return Onward(Progress(cursor, p.pages + 1, Some(current), batch)), meta;
    }

    /** One pass of the outer loop: a transaction from its first page to its end or its restart. */
    method Transaction(
      prefix: string, transaction: nat, maxTransactions: nat, requestsBefore: nat, maxRequests: nat, maxPages: nat,
      ghost base: nat)
      returns (r: Result<(seq<string>, nat), Error>, restart: bool, requests: nat, ghost meta: Metadata)
      requires 1 <= transaction <= maxTransactions && requestsBefore <= maxRequests && 1 <= maxRequests && 1 <= maxPages
      requires |log| == base + requestsBefore
      requires Begun(log[base..]) == transaction - 1 && PageBudget(log[base..], maxPages) && InSequence(log[base..])
      requires requestsBefore > 0 ==> Follows(log[|log| - 1], None)
      modifies this, clock
      ensures old(log) <= log && |log| == base + requests && requests <= maxRequests
      ensures PageBudget(log[base..], maxPages) && InSequence(log[base..])
      ensures Begun(log[base..]) <= transaction
      ensures restart ==>
        && transaction < maxTransactions && Begun(log[base..]) == transaction && clock.count == old(clock.count)
        && requests > 0 && Follows(log[|log| - 1], None)
      ensures !restart && r.Success? ==>
        && 1 <= r.value.1 <= requests && r.value.1 <= maxPages && r.value.1 == Underway(log[base..])
        && Complete(scope, reader, prefix, meta, log[|log| - r.value.1..], r.value.0)
        && Orderly(reader, meta, prefix, Entries(log[|log| - r.value.1..]), r.value.0)
      ensures !restart && r.Failure? ==>
        && r.error != BadBudget
        && Explained(r.error, log[base..], scope, reader, prefix, maxTransactions, maxRequests, maxPages,
                     clock.count > old(clock.count))
    {
      hide Pages, Entries, Orderly, PageBudget, Underway, Begun, InSequence, Complete, Explained, Follows;
      ghost var start := |log|;
      meta := Metadata(0, 0);
      requests, restart := requestsBefore, false;
      r := Failure(Exhausted);
      var p: Progress<I> := Progress(None, 0, None, Batch([], {}, None));
      NoPages(scope, reader, prefix, meta);
      assert log[start..] == [];
      while true
        invariant old(log) <= log && clock.count == old(clock.count)
        invariant Going(scope, reader, log, p, prefix, transaction, requests, maxRequests, maxPages, base, start, meta)
        decreases maxRequests - requests
      {
        hide Going;
        var step;
        GoingBounds(scope, reader, log, p, prefix, transaction, requests, maxRequests, maxPages, base, start, meta);
        step, requests, meta :=
          Advance(p, prefix, transaction, maxTransactions, requests, maxRequests, maxPages, base, start, meta);
        match step
        case Onward(progress) => p := progress;
        case Restart => return Failure(Exhausted), true, requests, meta;
        case Finished(names, pages) => return Success((names, pages)), false, requests, meta;
        case Ended(error) => return Failure(error), false, requests, meta;
      }
    }
  }

  lemma ReadNothing<E, I>(
    reader: Reader<E, I>, meta: Metadata, prefix: string, entries: seq<E>, seen: set<I>, previous: Option<string>)
    ensures Read(reader, meta, prefix, entries[..0], seen, previous) == Some(Batch([], seen, previous))
  {
  }

  lemma FinishTransaction<E, I>(
    scope: Scope, reader: Reader<E, I>, prefix: string, meta: Metadata, t: seq<Exchange<E>>, batch: Batch<I>)
    requires t != [] && Pages(scope, reader, prefix, meta, t, batch)
    requires Answered(scope, t[|t| - 1], meta) && t[|t| - 1].response.value.page.nextCursor == Null
    ensures Complete(scope, reader, prefix, meta, t, batch.names)
    ensures Orderly(reader, meta, prefix, Entries(t), batch.names)
  {
    CompleteIsOrderly(scope, reader, prefix, meta, t, batch.names);
  }
}
