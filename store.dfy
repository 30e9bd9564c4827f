/** The detection-history store of `SignLanguageLogic`: one document collection
    holding the singleton `'current'` record (the latest text the external
    detector wrote) and the history documents `store_current_text` inserts.
    The collection is a sequence of documents in insertion order; the read-only
    queries are functions over it, and the operations that change it are
    methods of the `Store` class. */
module DetectionStore {
  import opened PyText

  datatype Option<T> = None | Some(value: T)

  /** A document's `_id`: the fixed key `'current'`, or a generated object id. */
  datatype DocId = CurrentKey | ObjectId(n: nat)

  /** A history document: `sentence`, `timestamp`, `full_text`, `word_count`
      and `char_count`, under the object id the database gave it. */
  datatype Entry = Entry(oid: nat, sentence: string, timestamp: nat,
                         fullText: string, wordCount: nat, charCount: nat)

  /** A document of the collection. The `'current'` record may lack its
      `sentence` field, which `text` models as `None`. */
  datatype Doc = CurrentDoc(text: Option<string>) | HistoryDoc(entry: Entry)
  {
    function Id(): DocId {
      match this
      case CurrentDoc(_) => CurrentKey
      case HistoryDoc(e) => ObjectId(e.oid)
    }
  }

  /** The database keeps `_id` unique across the collection. */
  predicate UniqueIds(docs: seq<Doc>) {
    forall i, j :: 0 <= i < j < |docs| ==> docs[i].Id() != docs[j].Id()
  }

  // ---------------------------------------------------------------------
  // get_current_sentence

  /** `get_current_sentence`: the `sentence` of the `'current'` record, or ""
      when the record or its field is missing. */
  function CurrentSentence(docs: seq<Doc>): (r: string)
    ensures r != [] ==> exists i :: 0 <= i < |docs| && docs[i] == CurrentDoc(Some(r))
    ensures (forall i :: 0 <= i < |docs| ==> !docs[i].CurrentDoc?) ==> r == []
  {
    if docs == [] then []
    else match docs[0]
      case CurrentDoc(t) => (match t case Some(s) => s case None => [])
      case HistoryDoc(_) =>
        var r := CurrentSentence(docs[1..]);
        assert r != [] ==> docs[1..][0..] == docs[1..];
        r
  }

  /** With `_id` unique, `get_current_sentence` reads the `'current'` record
      whenever there is one: its `sentence`, or "" when the field is missing. */
  lemma {:induction false} CurrentSentenceReadsRecord(docs: seq<Doc>, t: Option<string>)
    requires UniqueIds(docs) && CurrentDoc(t) in docs
    ensures CurrentSentence(docs) == if t.Some? then t.value else []
  {
    if docs[0] != CurrentDoc(t) {
      var k :| 0 <= k < |docs| && docs[k] == CurrentDoc(t);
      assert docs[0].Id() != docs[k].Id();
      assert docs[1..][k - 1] == CurrentDoc(t);
      assert UniqueIds(docs[1..]) by {
        forall i, j | 0 <= i < j < |docs[1..]| ensures docs[1..][i].Id() != docs[1..][j].Id() {
          assert docs[1..][i] == docs[i + 1] && docs[1..][j] == docs[j + 1];
        }
      }
      CurrentSentenceReadsRecord(docs[1..], t);
    }
  }

  // ---------------------------------------------------------------------
  // get_detection_history

  /** The history documents (`{'_id': {'$ne': 'current'}}`), in insertion order. */
  function Entries(docs: seq<Doc>): (es: seq<Entry>)
    ensures forall e :: e in es <==> HistoryDoc(e) in docs
    ensures |es| <= |docs|
  {
    if docs == [] then []
    else
      var rest := Entries(docs[1..]);
      assert docs == [docs[0]] + docs[1..];
      match docs[0]
      case CurrentDoc(_) => rest
      case HistoryDoc(e) => [e] + rest
  }

  /** The filter keeps each history document exactly as often as the
      collection holds it. */
  lemma {:induction false} EntriesCountsHistory(docs: seq<Doc>)
    ensures forall e :: multiset(Entries(docs))[e] == multiset(docs)[HistoryDoc(e)]
  {
    if docs != [] {
      EntriesCountsHistory(docs[1..]);
      var rest := Entries(docs[1..]);
      assert multiset(docs) == multiset{docs[0]} + multiset(docs[1..]) by {
        assert docs == [docs[0]] + docs[1..];
      }
      match docs[0]
      case CurrentDoc(_) =>
        assert Entries(docs) == rest;
      case HistoryDoc(h) =>
        assert Entries(docs) == [h] + rest;
        assert multiset([h] + rest) == multiset{h} + multiset(rest);
    }
  }

  /** Newest first: timestamps never increase along the sequence. */
  predicate NewestFirst(es: seq<Entry>) {
    forall i, j :: 0 <= i < j < |es| ==> es[i].timestamp >= es[j].timestamp
  }

  /** Places `e` before the first entry strictly older than it, so that among
      equal timestamps the entries placed later come first. */
  function InsertByTime(e: Entry, es: seq<Entry>): seq<Entry>
  {
    if es == [] || es[0].timestamp < e.timestamp then [e] + es
    else [es[0]] + InsertByTime(e, es[1..])
  }

  lemma {:induction false} InsertByTimeSorted(e: Entry, es: seq<Entry>)
    requires NewestFirst(es)
    ensures NewestFirst(InsertByTime(e, es))
    ensures multiset(InsertByTime(e, es)) == multiset(es) + multiset{e}
  {
    if es != [] && es[0].timestamp >= e.timestamp {
      InsertByTimeSorted(e, es[1..]);
      var tail := InsertByTime(e, es[1..]);
      assert es == [es[0]] + es[1..];
      NoNewerAfterInsert(es[0], e, es[1..]);
      ConsNewestFirst(es[0], tail);
    }
  }

  /** An entry no older than `e` and than every entry of `es` is no older
      than any entry of `InsertByTime(e, es)`. */
  lemma NoNewerAfterInsert(h: Entry, e: Entry, es: seq<Entry>)
    requires h.timestamp >= e.timestamp
    requires forall j :: 0 <= j < |es| ==> h.timestamp >= es[j].timestamp
    requires multiset(InsertByTime(e, es)) == multiset(es) + multiset{e}
    ensures forall j :: 0 <= j < |InsertByTime(e, es)| ==> h.timestamp >= InsertByTime(e, es)[j].timestamp
  {
    var tail := InsertByTime(e, es);
    forall j | 0 <= j < |tail| ensures h.timestamp >= tail[j].timestamp {
      assert tail[j] in multiset(es) + multiset{e};
      if tail[j] != e {
        var k :| 0 <= k < |es| && es[k] == tail[j];
      }
    }
  }

  /** An entry no older than every entry of a newest-first sequence heads it. */
  lemma ConsNewestFirst(h: Entry, es: seq<Entry>)
    requires NewestFirst(es)
    requires forall j :: 0 <= j < |es| ==> h.timestamp >= es[j].timestamp
    ensures NewestFirst([h] + es)
  {
    var r := [h] + es;
    forall i, j | 0 <= i < j < |r| ensures r[i].timestamp >= r[j].timestamp {
      assert r[j] == es[j - 1];
      if i > 0 { assert r[i] == es[i - 1]; }
    }
  }

  /** `.sort('timestamp', -1)` over the entries in insertion order. MongoDB
      leaves the order of equal timestamps open; this model lists the entry
      inserted later first. */
  function SortNewestFirst(es: seq<Entry>): seq<Entry>
  {
    if es == [] then [] else InsertByTime(es[0], SortNewestFirst(es[1..]))
  }

  lemma {:induction false} SortNewestFirstCorrect(es: seq<Entry>)
    ensures NewestFirst(SortNewestFirst(es))
    ensures multiset(SortNewestFirst(es)) == multiset(es)
  {
    if es != [] {
      SortNewestFirstCorrect(es[1..]);
      InsertByTimeSorted(es[0], SortNewestFirst(es[1..]));
      assert es == [es[0]] + es[1..];
    }
  }

  /** How many documents `.limit(limit)` lets through out of `n`: pymongo
      reads 0 as "no limit" and a negative limit as its absolute value. */
  function LimitCount(limit: int, n: nat): (k: nat)
    ensures k <= n
  {
    var cap := if limit < 0 then -limit else limit;
    if limit == 0 || n <= cap then n else cap
  }

  /** `get_detection_history(limit)`: the history documents, newest first,
      cut to `limit` (0 meaning all of them). */
  function DetectionHistory(docs: seq<Doc>, limit: int): (r: seq<Entry>)
    ensures NewestFirst(r)
    ensures forall e :: e in r ==> HistoryDoc(e) in docs
    ensures limit == 0 ==> |r| == |Entries(docs)|
    ensures var cap := if limit < 0 then -limit else limit;
      limit != 0 ==> |r| == (if |Entries(docs)| <= cap then |Entries(docs)| else cap)
  {
    var all := SortNewestFirst(Entries(docs));
    SortNewestFirstCorrect(Entries(docs));
    assert |all| == |Entries(docs)| by {
      assert |multiset(all)| == |multiset(Entries(docs))|;
    }
    var r := all[..LimitCount(limit, |all|)];
    assert forall e :: e in r ==> e in multiset(Entries(docs)) by {
      assert forall e :: e in r ==> e in all;
    }
    r
  }

  /** With no limit the listing holds every history document exactly as often
      as the collection does, and never the `'current'` record. */
  lemma DetectionHistoryIsPermutation(docs: seq<Doc>)
    ensures multiset(DetectionHistory(docs, 0)) == multiset(Entries(docs))
    ensures forall e :: multiset(DetectionHistory(docs, 0))[e] == multiset(docs)[HistoryDoc(e)]
  {
    SortNewestFirstCorrect(Entries(docs));
    assert DetectionHistory(docs, 0) == SortNewestFirst(Entries(docs));
    EntriesCountsHistory(docs);
  }

  /** A cut listing is the newest part of the full one: it is a prefix of the
      full listing, and every history document left out is no newer than the
      last one listed. */
  lemma DetectionHistoryKeepsNewest(docs: seq<Doc>, limit: int)
    requires limit != 0
    ensures var r, all := DetectionHistory(docs, limit), DetectionHistory(docs, 0);
      && r == all[..|r|]
      && forall k :: |r| <= k < |all| ==> r != [] && all[k].timestamp <= r[|r| - 1].timestamp
  {
    var all := DetectionHistory(docs, 0);
    var r := DetectionHistory(docs, limit);
    assert r == all[..|r|];
    assert NewestFirst(all);
  }

  // ---------------------------------------------------------------------
  // get_last_stored_sentence and is_consecutive_duplicate

  /** The history document `find_one(..., sort=[('timestamp', -1)])` returns,
      found by one pass over the collection: the greatest timestamp, the later
      insertion on a tie. */
  function LatestEntry(docs: seq<Doc>): (r: Option<Entry>)
    ensures r.None? <==> Entries(docs) == []
    ensures r.Some? ==> HistoryDoc(r.value) in docs
    ensures r.Some? ==> forall e :: e in Entries(docs) ==> e.timestamp <= r.value.timestamp
  {
    if docs == [] then None
    else
      var rest := LatestEntry(docs[1..]);
      assert docs == [docs[0]] + docs[1..];
      match docs[0]
      case CurrentDoc(_) => rest
      case HistoryDoc(e) =>
        match rest
        case None => Some(e)
        case Some(x) => if x.timestamp >= e.timestamp then Some(x) else Some(e)
  }

  /** `get_last_stored_sentence` returns the first document of the history
      listing: the one-pass search and the sorted listing agree, ties included. */
  lemma {:induction false} LatestEntryHeadsHistory(docs: seq<Doc>)
    ensures LatestEntry(docs) == if Entries(docs) == [] then None else Some(DetectionHistory(docs, 1)[0])
  {
    if docs != [] {
      LatestEntryHeadsHistory(docs[1..]);
      var es := Entries(docs[1..]);
      if es != [] {
        assert DetectionHistory(docs[1..], 1)[0] == SortNewestFirst(es)[0];
      }
      assert SortNewestFirst(es) == [] <==> es == [] by {
        SortNewestFirstCorrect(es);
        if SortNewestFirst(es) == [] { assert |multiset(es)| == 0; }
      }
    }
  }

  /** `get_last_stored_sentence`: the `sentence` of the newest history
      document, the one `get_detection_history(1)` would list, or `None` when
      there is no history. */
  function LastStoredSentence(docs: seq<Doc>): (r: Option<string>)
    ensures r == if Entries(docs) == [] then None else Some(DetectionHistory(docs, 1)[0].sentence)
  {
    LatestEntryHeadsHistory(docs);
    match LatestEntry(docs)
    case Some(e) => Some(e.sentence)
    case None => None
  }

  /** `is_consecutive_duplicate(new_sentence)`: a last stored sentence exists,
      is not the empty string (Python's `if last_sentence:`), and equals the
      candidate once both are stripped. */
  function IsConsecutiveDuplicate(docs: seq<Doc>, newSentence: string): (r: bool)
    ensures r <==> LatestEntry(docs).Some? && LatestEntry(docs).value.sentence != []
                   && Strip(newSentence) == Strip(LatestEntry(docs).value.sentence)
  {
    match LastStoredSentence(docs)
    case Some(last) => if last != [] then Strip(newSentence) == Strip(last) else false
    case None => false
  }

  // ---------------------------------------------------------------------
  // store_current_text

  /** What `store_current_text` reports, one case per message it returns. */
  datatype StoreOutcome = NoText | TooShort | Duplicate | Stored(sentence: string)

  /** The exact message `store_current_text` returns for each outcome. */
  function StoreMessage(o: StoreOutcome): string
  {
    match o
    case NoText => "No text to store."
    case TooShort => "Text must be at least 2 characters long to store."
    case Duplicate => "This text is already stored (consecutive duplicate)."
    case Stored(s) => "Successfully stored: '" + s + "'"
  }

  /** The duplicate test `store_current_text` makes inline: the newest history
      document's stripped `sentence` equals the cleaned text. */
  function MatchesLatest(docs: seq<Doc>, clean: string): bool
  {
    match LatestEntry(docs)
    case Some(e) => clean == Strip(e.sentence)
    case None => false
  }

  /** The verdict `store_current_text` reaches on a collection. */
  function StoreDecision(docs: seq<Doc>): StoreOutcome
  {
    var current := CurrentSentence(docs);
    var clean := Strip(current);
    if clean == [] then NoText
    else if |clean| < 2 then TooShort
    else if MatchesLatest(docs, clean) then Duplicate
    else Stored(clean)
  }

  /** The history document `store_current_text` inserts for the text `current`. */
  function NewEntry(oid: nat, now: nat, current: string): Entry
  {
    var clean := Strip(current);
    Entry(oid, clean, now, current, |Split(clean)|, |clean|)
  }

  /** The collection after `store_current_text`, given the object id and the
      clock reading the insert receives. */
  function AfterStore(docs: seq<Doc>, oid: nat, now: nat): seq<Doc>
  {
    if StoreDecision(docs).Stored? then docs + [HistoryDoc(NewEntry(oid, now, CurrentSentence(docs)))]
    else docs
  }

  /** The inline duplicate test of `store_current_text` and
      `is_consecutive_duplicate` agree on every text that passed the length check. */
  lemma InlineCheckIsConsecutiveDuplicate(docs: seq<Doc>, current: string)
    requires Strip(current) != []
    ensures MatchesLatest(docs, Strip(current)) == IsConsecutiveDuplicate(docs, current)
  {
    StripIdempotent(current);
    if LatestEntry(docs).Some? && LatestEntry(docs).value.sentence == [] {
      assert Strip(LatestEntry(docs).value.sentence) == [];
    }
  }

  /** The verdicts of `store_current_text`, each stated as exactly when it
      occurs. */
  lemma StoreDecisionCases(docs: seq<Doc>)
    ensures var cur := CurrentSentence(docs);
      && (StoreDecision(docs) == NoText <==> AllSpace(cur))
      && (StoreDecision(docs) == TooShort <==> !AllSpace(cur) && |Strip(cur)| < 2)
      && (StoreDecision(docs) == Duplicate <==>
            |Strip(cur)| >= 2 && IsConsecutiveDuplicate(docs, cur))
      && (StoreDecision(docs).Stored? <==>
            |Strip(cur)| >= 2 && !IsConsecutiveDuplicate(docs, cur))
      && (StoreDecision(docs).Stored? ==> StoreDecision(docs).sentence == Strip(cur))
  {
    var cur := CurrentSentence(docs);
    StripBlank(cur);
    if Strip(cur) != [] {
      InlineCheckIsConsecutiveDuplicate(docs, cur);
    }
  }

  /** A rejected store changes nothing; a successful one appends exactly one
      history document, leaves every earlier document where it was, and that
      document carries the stripped text, the original text, the word count
      `split()` gives, and the stripped length. */
  lemma AfterStoreEffect(docs: seq<Doc>, oid: nat, now: nat)
    ensures var after, cur := AfterStore(docs, oid, now), CurrentSentence(docs);
      && (!StoreDecision(docs).Stored? ==> after == docs)
      && (StoreDecision(docs).Stored? ==>
            && |after| == |docs| + 1 && after[..|docs|] == docs
            && var e := after[|docs|].entry;
            && after[|docs|].HistoryDoc?
            && e.sentence == Strip(cur) && e.fullText == cur && e.timestamp == now
            && e.wordCount == WordStarts(cur, true) && e.charCount == |Strip(cur)|
            && |e.sentence| >= 2)
  {
    var cur := CurrentSentence(docs);
    SplitIgnoresEnds(cur);
    SplitCountsWordStarts(cur);
  }

  // ---------------------------------------------------------------------
  // A well-formed history

  /** What every history document `store_current_text` writes satisfies. */
  predicate WellFormedEntry(e: Entry) {
    && e.sentence == Strip(e.sentence) && |e.sentence| >= 2
    && e.sentence == Strip(e.fullText)
    && e.charCount == |e.sentence| && e.wordCount == |Split(e.sentence)|
  }

  predicate WellFormedHistory(docs: seq<Doc>) {
    forall e :: e in Entries(docs) ==> WellFormedEntry(e)
  }

  /** Storing keeps the history well formed. */
  lemma StorePreservesWellFormed(docs: seq<Doc>, oid: nat, now: nat)
    requires WellFormedHistory(docs)
    ensures WellFormedHistory(AfterStore(docs, oid, now))
  {
    if StoreDecision(docs).Stored? {
      StripIdempotent(CurrentSentence(docs));
    }
  }

  // ---------------------------------------------------------------------
  // delete_history_item and clear_all_history

  /** The position of the first document with the given id, or the length of
      the collection when there is none. */
  function FirstIndexOf(docs: seq<Doc>, id: DocId): (i: nat)
    ensures i <= |docs|
    ensures forall j :: 0 <= j < i ==> docs[j].Id() != id
    ensures i < |docs| ==> docs[i].Id() == id
  {
    if docs == [] then 0
    else if docs[0].Id() == id then 0
    else 1 + FirstIndexOf(docs[1..], id)
  }

  /** `delete_one({'_id': id})`: the first document with that id is removed;
      without one the collection is unchanged. */
  function DeleteOne(docs: seq<Doc>, id: DocId): (r: seq<Doc>)
    ensures var i := FirstIndexOf(docs, id);
      r == if i < |docs| then docs[..i] + docs[i + 1..] else docs
  {
    if docs == [] then []
    else if docs[0].Id() == id then docs[1..]
    else
      var rest := DeleteOne(docs[1..], id);
      ConsCut(docs, FirstIndexOf(docs[1..], id));
      [docs[0]] + rest
  }

  /** Cutting position `i` out of the tail and putting the head back cuts
      position `i + 1` out of the whole. */
  lemma ConsCut(docs: seq<Doc>, i: nat)
    requires docs != [] && i < |docs|
    ensures i + 1 < |docs| ==> [docs[0]] + (docs[1..][..i] + docs[1..][i + 1..]) == docs[..i + 1] + docs[i + 2..]
    ensures i + 1 == |docs| ==> [docs[0]] + docs[1..] == docs
  {
    if i + 1 < |docs| {
      assert docs[1..][..i] == docs[1..i + 1];
      assert docs[1..][i + 1..] == docs[i + 2..];
      assert [docs[0]] + docs[1..i + 1] == docs[..i + 1];
    }
  }

  /** Each document left after deleting position `i` sits in the original at
      its own position before `i` and one further on after it. */
  lemma CutIndex(docs: seq<Doc>, i: nat, k: nat)
    requires i < |docs| && k < |docs| - 1
    ensures (docs[..i] + docs[i + 1..])[k] == if k < i then docs[k] else docs[k + 1]
  {
  }

  /** Each document left after a deletion is the one at its own position in
      the original or at the next. */
  lemma DeleteShift(docs: seq<Doc>, id: DocId)
    ensures |DeleteOne(docs, id)| <= |docs|
    ensures forall k :: 0 <= k < |DeleteOne(docs, id)| ==>
      DeleteOne(docs, id)[k] == docs[k] || (k + 1 < |docs| && DeleteOne(docs, id)[k] == docs[k + 1])
  {
    var r := DeleteOne(docs, id);
    var i := FirstIndexOf(docs, id);
    if i < |docs| {
      forall k | 0 <= k < |r| ensures r[k] == docs[k] || (k + 1 < |docs| && r[k] == docs[k + 1]) {
        CutIndex(docs, i, k);
      }
    }
  }

  /** Deleting never brings in a document that was not there. */
  lemma DeleteTakesFromDocs(docs: seq<Doc>, id: DocId)
    ensures forall d :: d in DeleteOne(docs, id) ==> d in docs
  {
    var r := DeleteOne(docs, id);
    DeleteShift(docs, id);
    forall d | d in r ensures d in docs {
      var k :| 0 <= k < |r| && r[k] == d;
    }
  }

  /** With unique ids, deleting by id removes the document with that id and
      nothing else. */
  lemma DeleteRemovesOnlyThat(docs: seq<Doc>, id: DocId)
    requires UniqueIds(docs)
    ensures forall d :: d in DeleteOne(docs, id) <==> d in docs && d.Id() != id
  {
    var r := DeleteOne(docs, id);
    var i := FirstIndexOf(docs, id);
    if i < |docs| {
      forall d | d in docs && d.Id() != id ensures d in r {
        var k :| 0 <= k < |docs| && docs[k] == d;
        assert k != i;
        if k < i { CutIndex(docs, i, k); } else { CutIndex(docs, i, k - 1); }
        assert r[if k < i then k else k - 1] == d;
      }
      forall d | d in r ensures d in docs && d.Id() != id {
        var k :| 0 <= k < |r| && r[k] == d;
        CutIndex(docs, i, k);
        assert d == docs[if k < i then k else k + 1];
      }
    }
  }

  /** Deleting keeps the ids unique. */
  lemma DeleteKeepsUniqueIds(docs: seq<Doc>, id: DocId)
    requires UniqueIds(docs)
    ensures UniqueIds(DeleteOne(docs, id))
  {
    var r := DeleteOne(docs, id);
    var i := FirstIndexOf(docs, id);
    if i < |docs| {
      forall a, b | 0 <= a < b < |r| ensures r[a].Id() != r[b].Id() {
        CutIndex(docs, i, a);
        CutIndex(docs, i, b);
      }
    }
  }

  /** Every history document's object id is below `n`. */
  predicate OidsBelow(docs: seq<Doc>, n: nat) {
    forall i :: 0 <= i < |docs| && docs[i].HistoryDoc? ==> docs[i].entry.oid < n
  }

  /** Deleting keeps every object id under a bound that held before. */
  lemma DeleteKeepsOidBound(docs: seq<Doc>, id: DocId, n: nat)
    requires OidsBelow(docs, n)
    ensures OidsBelow(DeleteOne(docs, id), n)
  {
    DeleteShift(docs, id);
  }

  /** Appending a history document under an id larger than every id in use
      keeps the ids unique. */
  lemma AppendFreshKeepsUniqueIds(docs: seq<Doc>, e: Entry)
    requires UniqueIds(docs)
    requires OidsBelow(docs, e.oid)
    ensures UniqueIds(docs + [HistoryDoc(e)])
  {
    var r := docs + [HistoryDoc(e)];
    forall a, b | 0 <= a < b < |r| ensures r[a].Id() != r[b].Id() {
      if b == |docs| {
        assert r[a] == docs[a];
      } else {
        assert r[a] == docs[a] && r[b] == docs[b];
      }
    }
  }

  /** Appending a history document under an id below `n` keeps every id below `n`. */
  lemma AppendKeepsOidBound(docs: seq<Doc>, e: Entry, n: nat)
    requires OidsBelow(docs, n) && e.oid < n
    ensures OidsBelow(docs + [HistoryDoc(e)], n)
  {
    var r := docs + [HistoryDoc(e)];
    forall i | 0 <= i < |docs| ensures r[i] == docs[i] { }
  }

  // ---------------------------------------------------------------------
  // The store object

  /** The largest object id in use, plus one. */
  function NextFreeOid(docs: seq<Doc>): (n: nat)
    ensures OidsBelow(docs, n)
  {
    if docs == [] then 0
    else
      var rest := NextFreeOid(docs[1..]);
      assert forall i :: 1 <= i < |docs| ==> docs[i] == docs[1..][i - 1];
      match docs[0]
      case CurrentDoc(_) => rest
      case HistoryDoc(e) => if e.oid < rest then rest else e.oid + 1
  }

  /** `SignLanguageLogic`'s store: the `sentences` collection, the object ids
      the database will hand out next, and the `should_store_text` flag. */
  class Store {
    var docs: seq<Doc>
    var nextOid: nat
    var shouldStoreText: bool

    predicate Valid()
      reads this
    {
      && UniqueIds(docs)
      && OidsBelow(docs, nextOid)
    }

    /** `__init__`: connect to the collection as it stands; automatic storage off. */
    constructor (existing: seq<Doc>)
      requires UniqueIds(existing)
      ensures Valid()
      ensures docs == existing && !shouldStoreText
    {
      docs := existing;
      nextOid := NextFreeOid(existing);
      shouldStoreText := false;
    }

    /** `store_current_text`: read the current text, strip it, reject it if
        blank, shorter than 2 characters, or equal to the newest history
        document's stripped sentence; otherwise insert one history document
        timestamped `now`. It never consults `should_store_text`. */
    method StoreCurrentText(now: nat) returns (outcome: StoreOutcome, message: string)
      requires Valid()
      modifies this
      ensures Valid()
      ensures outcome == StoreDecision(old(docs)) && message == StoreMessage(outcome)
      ensures docs == AfterStore(old(docs), old(nextOid), now)
      ensures nextOid == old(nextOid) + (if outcome.Stored? then 1 else 0)
      ensures shouldStoreText == old(shouldStoreText)
    {
      var current := CurrentSentence(docs);
      if Strip(current) == [] {
        outcome := NoText;
        return outcome, StoreMessage(outcome);
      }
      var clean := Strip(current);
      if |clean| < 2 {
        outcome := TooShort;
        return outcome, StoreMessage(outcome);
      }
      var lastDoc := LatestEntry(docs);
      var isDuplicate := false;
      if lastDoc.Some? {
        isDuplicate := clean == Strip(lastDoc.value.sentence);
      }
      if isDuplicate {
        outcome := Duplicate;
        return outcome, StoreMessage(outcome);
      }
      assert isDuplicate == MatchesLatest(docs, clean);
      var entry := Entry(nextOid, clean, now, current, |Split(clean)|, |clean|);
      assert entry == NewEntry(nextOid, now, current);
      AppendFreshKeepsUniqueIds(docs, entry);
      AppendKeepsOidBound(docs, entry, nextOid + 1);
      docs := docs + [HistoryDoc(entry)];
      nextOid := nextOid + 1;
      outcome := Stored(clean);
      message := StoreMessage(outcome);
    }

    /** `delete_history_item(doc_id)`: delete the document with that id, if
        any, and report `True` in every case. */
    method DeleteHistoryItem(id: DocId) returns (ok: bool)
      requires Valid()
      modifies this
      ensures Valid()
      ensures ok
      ensures docs == DeleteOne(old(docs), id)
      ensures nextOid == old(nextOid) && shouldStoreText == old(shouldStoreText)
    {
      var remaining := DeleteOne(docs, id);
      DeleteKeepsUniqueIds(docs, id);
      DeleteKeepsOidBound(docs, id, nextOid);
      docs := remaining;
      ok := true;
    }

    /** `clear_all_history`: `delete_many({})` empties the whole collection,
        the `'current'` record included, and reports how many documents went. */
    method ClearAllHistory() returns (deleted: nat, message: string)
      requires Valid()
      modifies this
      ensures Valid()
      ensures docs == [] && deleted == |old(docs)|
      ensures CurrentSentence(docs) == [] && DetectionHistory(docs, 0) == []
      ensures message == "Successfully deleted " + NatToString(deleted) + " documents"
      ensures nextOid == old(nextOid) && shouldStoreText == old(shouldStoreText)
    {
      deleted := |docs|;
      docs := [];
      message := "Successfully deleted " + NatToString(deleted) + " documents";
    }

    /** `start_text_storage`. */
    method StartTextStorage() returns (message: string)
      modifies this
      ensures shouldStoreText
      ensures docs == old(docs) && nextOid == old(nextOid)
      ensures message == "Text storage enabled. Detected text will be stored automatically."
    {
      shouldStoreText := true;
      message := "Text storage enabled. Detected text will be stored automatically.";
    }

    /** `stop_text_storage`. */
    method StopTextStorage() returns (message: string)
      modifies this
      ensures !shouldStoreText
      ensures docs == old(docs) && nextOid == old(nextOid)
      ensures message == "Text storage disabled. Detected text will not be stored automatically."
    {
      shouldStoreText := false;
      message := "Text storage disabled. Detected text will not be stored automatically.";
    }

    /** `get_storage_status`. */
    method GetStorageStatus() returns (enabled: bool)
      ensures enabled == shouldStoreText
    {
      enabled := shouldStoreText;
    }
  }
}
