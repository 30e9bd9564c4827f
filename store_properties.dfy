/** Properties of the detection store that relate several operations: what a
    successful store does to the next one, why a repeat that is not consecutive
    is accepted, and which invariants deleting and clearing keep. The external
    detector's write of the `'current'` record is modelled here by
    `WriteCurrent`, since the detector itself (final_pred.py) is not part of
    this model. */
module StoreProperties {
  import opened PyText
  import opened DetectionStore

  /** The detector's upsert of `{'_id': 'current', 'sentence': text}`: the
      first `'current'` record is overwritten in place, or a new one is added
      at the end when there is none. */
  function WriteCurrent(docs: seq<Doc>, text: string): seq<Doc>
  {
    if docs == [] then [CurrentDoc(Some(text))]
    else if docs[0].CurrentDoc? then [CurrentDoc(Some(text))] + docs[1..]
    else [docs[0]] + WriteCurrent(docs[1..], text)
  }

  /** After the detector writes `text`, `get_current_sentence` returns it, and
      the history documents and the newest of them are untouched. */
  lemma {:induction false} WriteCurrentEffect(docs: seq<Doc>, text: string)
    ensures CurrentSentence(WriteCurrent(docs, text)) == text
    ensures Entries(WriteCurrent(docs, text)) == Entries(docs)
    ensures LatestEntry(WriteCurrent(docs, text)) == LatestEntry(docs)
  {
    var w := WriteCurrent(docs, text);
    if docs != [] {
      if docs[0].CurrentDoc? {
        assert w[1..] == docs[1..];
      } else {
        WriteCurrentEffect(docs[1..], text);
        assert w[1..] == WriteCurrent(docs[1..], text);
      }
    }
  }

  /** Appending a history document leaves the current text alone and adds the
      document to the history; it becomes the newest unless an older document
      has a strictly later timestamp. */
  lemma {:induction false} AppendEntryEffect(docs: seq<Doc>, e: Entry)
    ensures CurrentSentence(docs + [HistoryDoc(e)]) == CurrentSentence(docs)
    ensures Entries(docs + [HistoryDoc(e)]) == Entries(docs) + [e]
    ensures LatestEntry(docs + [HistoryDoc(e)]) ==
      if LatestEntry(docs).Some? && LatestEntry(docs).value.timestamp > e.timestamp
      then LatestEntry(docs) else Some(e)
  {
    AppendKeepsCurrent(docs, e);
    AppendExtendsEntries(docs, e);
    AppendLatest(docs, e);
  }

  lemma {:induction false} AppendKeepsCurrent(docs: seq<Doc>, e: Entry)
    ensures CurrentSentence(docs + [HistoryDoc(e)]) == CurrentSentence(docs)
  {
    if docs != [] {
      AppendKeepsCurrent(docs[1..], e);
      assert (docs + [HistoryDoc(e)])[1..] == docs[1..] + [HistoryDoc(e)];
    }
  }

  lemma {:induction false} AppendExtendsEntries(docs: seq<Doc>, e: Entry)
    ensures Entries(docs + [HistoryDoc(e)]) == Entries(docs) + [e]
  {
    if docs != [] {
      AppendExtendsEntries(docs[1..], e);
      assert (docs + [HistoryDoc(e)])[1..] == docs[1..] + [HistoryDoc(e)];
    }
  }

  lemma {:induction false} AppendLatest(docs: seq<Doc>, e: Entry)
    ensures LatestEntry(docs + [HistoryDoc(e)]) ==
      if LatestEntry(docs).Some? && LatestEntry(docs).value.timestamp > e.timestamp
      then LatestEntry(docs) else Some(e)
  {
    if docs != [] {
      AppendLatest(docs[1..], e);
      assert (docs + [HistoryDoc(e)])[1..] == docs[1..] + [HistoryDoc(e)];
    }
  }

  /** No history document is newer than `now`. */
  predicate NotAfter(docs: seq<Doc>, now: nat) {
    forall e :: e in Entries(docs) ==> e.timestamp <= now
  }

  /** A successful store followed at once by another (the current text
      unchanged, the clock not gone back) is rejected as a consecutive
      duplicate and inserts nothing: history grows by exactly one. */
  lemma StoreTwiceIsDuplicate(docs: seq<Doc>, oid: nat, now: nat, oid2: nat, now2: nat)
    requires StoreDecision(docs).Stored? && NotAfter(docs, now)
    ensures var once := AfterStore(docs, oid, now);
      && StoreDecision(once) == Duplicate
      && AfterStore(once, oid2, now2) == once
      && |Entries(once)| == |Entries(docs)| + 1
  {
    var e := NewEntry(oid, now, CurrentSentence(docs));
    AppendEntryEffect(docs, e);
    StripIdempotent(CurrentSentence(docs));
  }

  /** `store_current_text` run just after the detector wrote `text`:
      `AfterStore` of the collection with that write applied. */
  function StoreText(docs: seq<Doc>, text: string, oid: nat, now: nat): seq<Doc>
  {
    AfterStore(WriteCurrent(docs, text), oid, now)
  }

  /** One successful store, read through the detector's write: it inserts the
      stripped text as the newest history document. */
  lemma StoreTextEffect(docs: seq<Doc>, text: string, oid: nat, now: nat)
    requires |Strip(text)| >= 2 && NotAfter(docs, now)
    requires LatestEntry(docs).None? || Strip(LatestEntry(docs).value.sentence) != Strip(text)
    ensures var after := StoreText(docs, text, oid, now);
      && StoreDecision(WriteCurrent(docs, text)) == Stored(Strip(text))
      && Entries(after) == Entries(docs) + [NewEntry(oid, now, text)]
      && LatestEntry(after) == Some(NewEntry(oid, now, text))
      && NotAfter(after, now)
  {
    var w := WriteCurrent(docs, text);
    WriteCurrentEffect(docs, text);
    AppendEntryEffect(w, NewEntry(oid, now, text));
  }

  /** Repeats that are not consecutive are accepted: storing `a`, then `b`,
      then `a` again inserts three history documents. */
  lemma NonConsecutiveRepeatIsStored(docs: seq<Doc>, a: string, b: string,
                                     o1: nat, t1: nat, o2: nat, t2: nat, o3: nat, t3: nat)
    requires |Strip(a)| >= 2 && |Strip(b)| >= 2 && Strip(a) != Strip(b)
    requires LatestEntry(docs).None? || Strip(LatestEntry(docs).value.sentence) != Strip(a)
    requires NotAfter(docs, t1) && t1 <= t2 <= t3
    ensures var d1 := StoreText(docs, a, o1, t1);
      var d2 := StoreText(d1, b, o2, t2);
      && StoreDecision(WriteCurrent(docs, a)) == Stored(Strip(a))
      && StoreDecision(WriteCurrent(d1, b)) == Stored(Strip(b))
      && StoreDecision(WriteCurrent(d2, a)) == Stored(Strip(a))
      && |Entries(StoreText(d2, a, o3, t3))| == |Entries(docs)| + 3
  {
    StoreTextEffect(docs, a, o1, t1);
    var d1 := StoreText(docs, a, o1, t1);
    StripIdempotent(a);
    StoreTextEffect(d1, b, o2, t2);
    var d2 := StoreText(d1, b, o2, t2);
    StripIdempotent(b);
    StoreTextEffect(d2, a, o3, t3);
  }

  lemma HiThereNoLeadingSpace()
    ensures TrimStart("hi there") == "hi there"
  {
    assert !IsSpace("hi there"[0]);
  }

  lemma HiThereStrip()
    ensures Strip("hi there") == "hi there"
  {
    HiThereNoLeadingSpace();
    assert !IsSpace("hi there"[7]);
  }

  lemma HiThereFirstWord()
    ensures TakeWord("hi there") == "hi"
  {
    var s := "hi there";
    assert s[1..] == "i there" && s[1..][1..] == " there";
    assert IsSpace(' ');
    assert TakeWord(" there") == [];
  }

  lemma ThereSplit()
    ensures Split("there") == ["there"]
  {
    var s := "there";
    assert !IsSpace(s[0]);
    assert TrimStart(s) == s;
    assert TakeWord(s) == s by {
      assert s[1..] == "here" && s[2..] == "ere" && s[3..] == "re" && s[4..] == "e";
      assert TakeWord(s[4..]) == "e";
      assert TakeWord(s[3..]) == "re";
      assert TakeWord(s[2..]) == "ere";
      assert TakeWord(s[1..]) == "here";
    }
    assert Split(s[5..]) == [];
  }

  lemma HiThereSplitsAtSpace()
    ensures Split("hi there") == ["hi"] + Split(" there")
  {
    var s := "hi there";
    HiThereNoLeadingSpace();
    HiThereFirstWord();
    assert AfterFirstWord(s) == s[2..] == " there";
    SplitUnfold(s);
  }

  lemma SpaceThereSplit()
    ensures Split(" there") == ["there"]
  {
    assert TrimStart(" there") == "there" by {
      assert IsSpace(' ') && " there"[1..] == "there";
      assert !IsSpace('t');
    }
    SplitSkipLeadingSpace(" there");
    ThereSplit();
  }

  lemma HiThereSplit()
    ensures Split("hi there") == ["hi", "there"]
  {
    HiThereSplitsAtSpace();
    SpaceThereSplit();
  }

  /** A worked case: with the detector's text "hi there" on an empty
      collection, storing inserts sentence "hi there" with 2 words and 8
      characters, and storing again is a consecutive duplicate. */
  lemma HiThereExample(oid: nat, now: nat, oid2: nat, now2: nat)
    ensures var docs := WriteCurrent([], "hi there");
      var once := AfterStore(docs, oid, now);
      && StoreDecision(docs) == Stored("hi there")
      && once == docs + [HistoryDoc(Entry(oid, "hi there", now, "hi there", 2, 8))]
      && StoreDecision(once) == Duplicate
  {
    HiThereStrip();
    HiThereSplit();
    var docs := WriteCurrent([], "hi there");
    assert docs == [CurrentDoc(Some("hi there"))];
    assert CurrentSentence(docs) == "hi there";
    assert LatestEntry(docs) == None;
    StoreTwiceIsDuplicate(docs, oid, now, oid2, now2);
  }

  /** Deleting keeps the history well formed. */
  lemma DeletePreservesWellFormed(docs: seq<Doc>, id: DocId)
    requires WellFormedHistory(docs)
    ensures WellFormedHistory(DeleteOne(docs, id))
  {
    DeleteTakesFromDocs(docs, id);
  }

  /** Deleting a history document by its id takes exactly one document out of
      the history listing and leaves the current text as it was. */
  lemma {:induction false} DeleteHistoryDocEffect(docs: seq<Doc>, e: Entry)
    requires UniqueIds(docs) && HistoryDoc(e) in docs
    ensures |Entries(DeleteOne(docs, ObjectId(e.oid)))| == |Entries(docs)| - 1
    ensures CurrentSentence(DeleteOne(docs, ObjectId(e.oid))) == CurrentSentence(docs)
  {
    if docs[0] == HistoryDoc(e) {
      assert CurrentSentence(docs) == CurrentSentence(docs[1..]);
    } else {
      assert docs[0].Id() != ObjectId(e.oid);
      assert HistoryDoc(e) in docs[1..] by {
        var k :| 0 <= k < |docs| && docs[k] == HistoryDoc(e);
        assert docs[1..][k - 1] == HistoryDoc(e);
      }
      DeleteHistoryDocEffect(docs[1..], e);
      assert DeleteOne(docs, ObjectId(e.oid)) == [docs[0]] + DeleteOne(docs[1..], ObjectId(e.oid));
      assert [docs[0]] + DeleteOne(docs[1..], ObjectId(e.oid)) != [];
      assert ([docs[0]] + DeleteOne(docs[1..], ObjectId(e.oid)))[1..] == DeleteOne(docs[1..], ObjectId(e.oid));
    }
  }

  /** `delete_history_item` does not check that the id names a history
      document: given the `'current'` key it deletes the current record, after
      which `get_current_sentence` returns "". */
  lemma DeleteCurrentKeyRemovesCurrent(docs: seq<Doc>)
    requires UniqueIds(docs)
    ensures CurrentSentence(DeleteOne(docs, CurrentKey)) == []
    ensures Entries(DeleteOne(docs, CurrentKey)) == Entries(docs)
  {
    var r := DeleteOne(docs, CurrentKey);
    DeleteRemovesOnlyThat(docs, CurrentKey);
    assert forall i :: 0 <= i < |r| ==> r[i] in r;
    DeleteCurrentKeepsEntries(docs);
  }

  lemma {:induction false} DeleteCurrentKeepsEntries(docs: seq<Doc>)
    ensures Entries(DeleteOne(docs, CurrentKey)) == Entries(docs)
  {
    if docs != [] && docs[0].Id() != CurrentKey {
      DeleteCurrentKeepsEntries(docs[1..]);
      assert DeleteOne(docs, CurrentKey)[1..] == DeleteOne(docs[1..], CurrentKey);
    }
  }
}
