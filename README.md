# Detection-history store of the sign-language assistant

This project models the part of the sign-language assistant that holds state:
the detection-history store of `SignLanguageLogic` (`app_logic.py`). The store
works over one MongoDB collection, `sentences`. The collection holds two kinds
of document:

- the singleton record `_id: 'current'`, in which an external detector writes
  the latest detected text;
- history documents, which `store_current_text` inserts. Each has `sentence`,
  `timestamp`, `full_text`, `word_count` and `char_count`.

The model covers these operations:

- reading the current sentence;
- committing it to history. The text is stripped, must be at least 2
  characters long, and must not repeat the newest history entry;
- listing history newest first, cut to a limit;
- finding the last stored sentence and testing a candidate for a consecutive
  duplicate;
- deleting one document by id, or every document;
- switching the automatic-storage flag on and off.

It also covers two pure helpers: `get_last_word_from_sentence` and
`get_language_keys`.

Files:

- `text.dfy` (module `PyText`) defines the Python string operations the
  store relies on. These are `str.strip()`, `str.split()` with no separator,
  and `str(n)` for a natural number. Whitespace is the character set of
  Python's `str.isspace()`. The module also holds the last-word helper.
- `languages.dfy` (module `Languages`) defines the language table and
  `get_language_keys`. Python's `sorted` is modelled as an insertion sort
  under Python's string order (code point by code point, a prefix first).
- `store.dfy` (module `DetectionStore`) holds the collection, as a sequence
  of documents in insertion order. The read-only queries are functions over
  that sequence. The operations that change state are methods of the class
  `Store`. Its fields are the collection, the next object id and
  `should_store_text`.
- `store_properties.dfy` (module `StoreProperties`) holds lemmas that relate
  several operations. `WriteCurrent` stands in for the external detector's
  write of the `'current'` record.

Two choices in the model:

- Timestamps are natural numbers the caller passes in (`now`).
- Where two history documents have the same timestamp, the one inserted later
  counts as newer. MongoDB leaves this order open. `LatestEntryHeadsHistory`
  proves that `get_last_stored_sentence` and the head of
  `get_detection_history` pick the same document under this rule.

The model keeps these behaviours of the code:

- `clear_all_history` deletes the `'current'` record too (app_logic.py:254).
- `delete_history_item` returns `True` whether or not the id existed
  (app_logic.py:137-140).
- No storage path consults `should_store_text`: `store_current_text` never
  reads it, and only `get_storage_status` (app_logic.py:303-305) returns it.
- `get_detection_history` hands its limit to pymongo's `.limit()` unchecked;
  `LimitCount` models that 0 means no limit and a negative limit counts as its
  absolute value.

## Model

| member | source | states |
|---|---|---|
| `PyText.StripSlice` | app_logic.py:275 | `strip()` returns a slice of its input. Only whitespace is cut, from both ends, and the result neither starts nor ends with whitespace |
| `PyText.StripBlank` | app_logic.py:272-273 | the stripped text is empty exactly when the input is all whitespace, which is the "no text" test |
| `PyText.StripIdempotent` | app_logic.py:286 | stripping an already stripped sentence changes nothing |
| `PyText.SplitCountsWordStarts` | app_logic.py:297 | the number of words `split()` returns equals the number of places where a token starts, counted independently |
| `PyText.SplitEmpty` | app_logic.py:145-146 | `split()` returns no word exactly when the text is all whitespace, so the `if words else ""` fallback never fires after the blank test |
| `PyText.SplitIgnoresEnds` | app_logic.py:145 | splitting the stripped text gives the same words as splitting the raw text |
| `PyText.SplitLast` | app_logic.py:145-146 | for a text that ends in a non-space character, the last word `split()` returns ends the text and is preceded by whitespace unless it is the whole text |
| `PyText.LastWord` | app_logic.py:142-147 | `get_last_word_from_sentence` returns "" exactly when the sentence is blank |
| `PyText.LastWordIsFinalToken` | app_logic.py:142-147 | for non-blank input the result is non-empty, contains no whitespace, and is the final whitespace-separated token of the stripped sentence |
| `PyText.NatToStringRoundTrip` | app_logic.py:255 | the decimal numeral written for the deleted count reads back as that count |
| `Languages.SortCorrect` | app_logic.py:47 | `sorted` returns its input in non-decreasing string order, as a permutation of it |
| `Languages.LanguageKeys` | app_logic.py:45-47 | "English" comes first. The other entries are sorted, none is "English", and they are a permutation of the comprehension's result |
| `Languages.OtherNamesCounts` | app_logic.py:47 | the comprehension `[k for k in self.lang_dict if k != 'English']` keeps every other name exactly as often as the table holds it |
| `Languages.LanguageKeysCounts` | app_logic.py:45-47 | after "English", every name of the table other than "English" is listed exactly as often as the table holds it |
| `DetectionStore.CurrentSentence` | app_logic.py:56-61 | a non-empty result is the `sentence` of a `'current'` record in the collection; with no such record the result is "" |
| `DetectionStore.CurrentSentenceReadsRecord` | app_logic.py:56-61 | with `_id` unique, whenever a `'current'` record exists the result is its `sentence`, or "" when that field is missing |
| `DetectionStore.Entries` | app_logic.py:134 | the `{'_id': {'$ne': 'current'}}` filter: a history document is selected exactly when it is in the collection, and never more documents than the collection holds |
| `DetectionStore.EntriesCountsHistory` | app_logic.py:134 | the filter keeps each history document exactly as often as the collection holds it |
| `DetectionStore.DetectionHistory` | app_logic.py:132-135 | the listing never includes the `'current'` record. It is newest first, holds only documents of the collection, and has `min(|limit|, count)` documents, or all of them when the limit is 0 |
| `DetectionStore.DetectionHistoryIsPermutation` | app_logic.py:134 | without a limit the listing is a permutation of the filtered documents, and holds every history document exactly as often as the collection does |
| `DetectionStore.DetectionHistoryKeepsNewest` | app_logic.py:134 | a limited listing is a prefix of the full one, and no document left out is newer than the last one listed |
| `DetectionStore.LatestEntry` | app_logic.py:236-239 | the newest history document: none exactly when there is no history document; otherwise one of them whose timestamp no other exceeds |
| `DetectionStore.LatestEntryHeadsHistory` | app_logic.py:234-242 | the document `get_last_stored_sentence` reads is the first one `get_detection_history` lists, ties included |
| `DetectionStore.LastStoredSentence` | app_logic.py:234-242 | `None` exactly when there is no history document; otherwise the `sentence` of the document `get_detection_history(1)` lists first |
| `DetectionStore.IsConsecutiveDuplicate` | app_logic.py:244-249 | true exactly when a newest history document exists, its sentence is not "" (Python's truth test), and it equals the candidate once both are stripped |
| `DetectionStore.InlineCheckIsConsecutiveDuplicate` | app_logic.py:279-286 | for a non-blank text, the duplicate test written inline in `store_current_text` agrees with `is_consecutive_duplicate` |
| `DetectionStore.StoreDecisionCases` | app_logic.py:269-289 | each outcome holds exactly when its condition holds: blank text, trimmed length under 2, consecutive duplicate, or stored as the stripped text |
| `DetectionStore.AfterStoreEffect` | app_logic.py:291-301 | a rejection leaves the collection unchanged. A success appends exactly one document and keeps the rest in place. That document has the stripped text, the original text, `now`, the token count and the stripped length |
| `DetectionStore.StorePreservesWellFormed` | app_logic.py:275-300 | storing keeps every history document well formed: stripped sentence of length 2 or more, `full_text` stripping to it, and matching counts |
| `DetectionStore.DeleteOne` | app_logic.py:139 | `delete_one` removes the first document with the id; without one the collection is unchanged |
| `DetectionStore.DeleteRemovesOnlyThat` | app_logic.py:137-140 | with unique ids, a document survives deletion exactly when it was present and has another id |
| `DetectionStore.DeleteKeepsUniqueIds` | app_logic.py:139 | deleting keeps `_id` unique |
| `DetectionStore.AppendFreshKeepsUniqueIds` | app_logic.py:300 | inserting under a fresh object id keeps `_id` unique |
| `DetectionStore.Store.constructor` | app_logic.py:15-43 | the store starts on the existing collection with automatic storage off |
| `DetectionStore.Store.StoreCurrentText` | app_logic.py:269-301 | outcome, message and new collection as stated by `StoreDecision`, `StoreMessage` and `AfterStore`. The next object id advances by one exactly on a successful insert, ids stay unique, and the storage flag is untouched |
| `DetectionStore.Store.DeleteHistoryItem` | app_logic.py:137-140 | returns true in every case, and the collection becomes `DeleteOne` of the old one |
| `DetectionStore.Store.ClearAllHistory` | app_logic.py:251-255 | the collection is empty, the `'current'` record included. The reported count is the old size, and the message is the exact text |
| `DetectionStore.Store.StartTextStorage` | app_logic.py:259-262 | sets the flag, leaves the collection alone, returns the exact message |
| `DetectionStore.Store.StopTextStorage` | app_logic.py:264-267 | clears the flag, leaves the collection alone, returns the exact message |
| `DetectionStore.Store.GetStorageStatus` | app_logic.py:303-305 | returns the flag |
| `StoreProperties.AppendEntryEffect` | app_logic.py:280-300 | inserting a history document leaves the current text alone. The document becomes newest unless an older one has a strictly later timestamp |
| `StoreProperties.StoreTwiceIsDuplicate` | app_logic.py:279-301 | after a successful store, storing again at once is a consecutive duplicate and inserts nothing; history grew by exactly one |
| `StoreProperties.StoreTextEffect` | app_logic.py:269-301 | storing a new text of 2 or more characters inserts it as the newest history document |
| `StoreProperties.NonConsecutiveRepeatIsStored` | app_logic.py:279-289 | storing `a`, then `b`, then `a` again succeeds three times and adds three history documents |
| `StoreProperties.HiThereExample` | app_logic.py:292-300 | "hi there" is stored with 2 words and 8 characters, and storing it again is a duplicate |
| `StoreProperties.DeletePreservesWellFormed` | app_logic.py:137-140 | deleting keeps the history well formed |
| `StoreProperties.DeleteHistoryDocEffect` | app_logic.py:137-140 | deleting a history document by its id shortens the history by exactly one and leaves the current text alone |
| `StoreProperties.DeleteCurrentKeyRemovesCurrent` | app_logic.py:137-140 | deleting the `'current'` key removes the current record, so the current text becomes "", and the history is unchanged |

## Left out

- The MongoDB client and connection (app_logic.py:16-18) are replaced by an in-memory sequence of documents. Backend failures are not modelled. These include the exception branch of `clear_all_history` (app_logic.py:256-257) and the exceptions the other operations would propagate.
- `datetime.now()` (app_logic.py:295) becomes the parameter `now`. The object ids the driver generates become the counter `nextOid`, which is larger than every id in use.
- The ordering of equal timestamps, which MongoDB leaves open, is fixed: the later insertion counts as newer.
- History documents always carry all five fields, because `store_current_text` is the only writer. Documents of other shapes, which another tool could write, are not modelled. So the `'sentence' in last_doc` test (app_logic.py:240, 285) always passes here.
- The external detector is not part of this model. `StoreProperties.WriteCurrent` stands in for its write of the `'current'` record. The order in which other processes run against the store is not modelled.
- `launch_sign_detection` and `generate_sign_video` (app_logic.py:49-54, 171-189) start processes, read files and sleep.
- `translate_sentence`, `speak_text`, `correct_grammar_spelling`, `record_voice_input` and `ask_ai_assistant` (app_logic.py:63-130, 149-169, 191-220) only wrap external translation, speech, spelling and language-model services.
- `format_timestamp` and `format_short_timestamp` (app_logic.py:222-232) only call `strftime` or `str`.
- app_ui.py, app_streamlit.py and clear_mongodb.py are page layout, buttons and a one-off cleanup script. They are not part of this model.
