/**
 * The per-user word store: the `user_words` table keyed by (Telegram id,
 * lower-cased word), the insert-if-absent save, and the read-through lookup
 * that falls back to the dictionary API on a miss.
 */
module DbRequests {
  import opened Wrappers
  import opened Text

  /** What a lookup filters on: `tg_id` and the lower-cased `word`. */
  datatype Key = Key(tgId: int, word: string)

  /** A row of `user_words`. The autoincrement `id` column is not modelled. */
  datatype UserWord = UserWord(
    tgId: int,
    word: string,
    transcription: string,
    translation: string,
    example: string,
    audioUrl: string)

  /** The lookup result handed to the chat front end; API results may lack any of the four fields. */
  datatype WordData = WordData(
    word: string,
    transcription: Option<string>,
    translation: Option<string>,
    example: Option<string>,
    audioUrl: Option<string>)

  function KeyOf(row: UserWord): Key
  {
    Key(row.tgId, row.word)
  }

  /** The row that `add_user_word` builds: the word is stored lower-cased, the other fields as given. */
  function NewRow(tgId: int, word: string, transcription: string, translation: string, example: string, audioUrl: string): UserWord
  {
    UserWord(tgId, Lower(word), transcription, translation, example, audioUrl)
  }

  /** A stored row as the lookup returns it. */
  function AsWordData(row: UserWord): WordData
  {
    WordData(row.word, Some(row.transcription), Some(row.translation), Some(row.example), Some(row.audioUrl))
  }

  /**
   * `session.scalar(select ... where tg_id == k.tgId and word == k.word)`. The query has no
   * ORDER BY; the model picks the earliest matching row, which is the query's only
   * answer whenever at most one row carries the key (`TableInvariant`).
   */
  function Find(rows: seq<UserWord>, k: Key): (r: Option<UserWord>)
    ensures r.Some? ==> r.value in rows && KeyOf(r.value) == k
    ensures r.None? <==> forall i :: 0 <= i < |rows| ==> KeyOf(rows[i]) != k
    decreases |rows|
  {
    if rows == [] then None
    else if KeyOf(rows[0]) == k then Some(rows[0])
    else Find(rows[1..], k)
  }

  /** No two rows share a key. The table's index is not unique, so only `add_user_word` keeps this. */
  predicate NoDuplicateKeys(rows: seq<UserWord>)
  {
    forall i, j :: 0 <= i < j < |rows| ==> KeyOf(rows[i]) != KeyOf(rows[j])
  }

  /** What every reachable table satisfies: unique keys and lower-cased words. */
  predicate TableInvariant(rows: seq<UserWord>)
  {
    NoDuplicateKeys(rows) && forall i :: 0 <= i < |rows| ==> Lower(rows[i].word) == rows[i].word
  }

  /** The table seen as a map from key to row (a later row would shadow an earlier one). */
  ghost function ToMap(rows: seq<UserWord>): map<Key, UserWord>
    decreases |rows|
  {
    if rows == [] then map[]
    else ToMap(rows[..|rows| - 1])[KeyOf(rows[|rows| - 1]) := rows[|rows| - 1]]
  }

  /** `add_user_word` on the table: a row whose key is present is refused, otherwise appended. */
  function AddRow(rows: seq<UserWord>, row: UserWord): (r: (bool, seq<UserWord>))
    ensures r.0 <==> forall i :: 0 <= i < |rows| ==> KeyOf(rows[i]) != KeyOf(row)
    ensures rows <= r.1 && |r.1| == |rows| + (if r.0 then 1 else 0)
    ensures r.0 ==> r.1[|rows|] == row
  {
    if Find(rows, KeyOf(row)).Some? then (false, rows) else (true, rows + [row])
  }

  /** The rows of one user. */
  function RowsOf(rows: seq<UserWord>, tgId: int): (r: seq<UserWord>)
    ensures forall i :: 0 <= i < |r| ==> r[i].tgId == tgId && r[i] in rows
    ensures forall i :: 0 <= i < |rows| && rows[i].tgId == tgId ==> rows[i] in r
    decreases |rows|
  {
    if rows == [] then []
    else if rows[0].tgId == tgId then [rows[0]] + RowsOf(rows[1..], tgId)
    else RowsOf(rows[1..], tgId)
  }

  // ---------------------------------------------------------------------------
  // The table as a map

  lemma FindAppend(rows: seq<UserWord>, row: UserWord, k: Key)
    ensures Find(rows + [row], k)
         == if Find(rows, k).Some? then Find(rows, k) else if KeyOf(row) == k then Some(row) else None
  {
    var all := rows + [row];
    if Find(rows, k).None? {
      if KeyOf(row) == k {
        assert all[|rows|] == row;
      } else {
        assert forall i :: 0 <= i < |all| ==> KeyOf(all[i]) != k by {
          assert forall i :: 0 <= i < |rows| ==> all[i] == rows[i];
        }
      }
    } else {
      FindPrefix(rows, [row], k);
    }
  }

  /** In the model's earliest-match choice, the first match in a prefix is the first match of the whole table. */
  lemma {:induction false} FindPrefix(rows: seq<UserWord>, more: seq<UserWord>, k: Key)
    requires Find(rows, k).Some?
    ensures Find(rows + more, k) == Find(rows, k)
    decreases |rows|
  {
    assert (rows + more)[0] == rows[0];
    if KeyOf(rows[0]) != k {
      assert (rows + more)[1..] == rows[1..] + more;
      FindPrefix(rows[1..], more, k);
    }
  }

  /** With unique keys, the first matching row is the map's entry for the key. */
  lemma {:induction false} FindAgreesWithMap(rows: seq<UserWord>, k: Key)
    requires NoDuplicateKeys(rows)
    ensures Find(rows, k) == if k in ToMap(rows) then Some(ToMap(rows)[k]) else None
    decreases |rows|
  {
    if rows != [] {
      var init, last := rows[..|rows| - 1], rows[|rows| - 1];
      assert rows == init + [last];
      assert NoDuplicateKeys(init) by {
        assert forall i :: 0 <= i < |init| ==> init[i] == rows[i];
      }
      FindAgreesWithMap(init, k);
      FindAppend(init, last, k);
    }
  }

  // ---------------------------------------------------------------------------
  // Saving a word

  /** Saving never breaks uniqueness of keys or the lower-case form of stored words. */
  lemma AddRowKeepsInvariant(rows: seq<UserWord>, row: UserWord)
    requires TableInvariant(rows) && Lower(row.word) == row.word
    ensures TableInvariant(AddRow(rows, row).1)
  {
    var all := rows + [row];
    if Find(rows, KeyOf(row)).None? {
      assert forall i :: 0 <= i < |rows| ==> all[i] == rows[i];
      assert all[|rows|] == row;
    }
  }

  /**
   * Saving is insert-if-absent on the map view: it reports success exactly when
   * the key is new, then adds just that entry; otherwise nothing changes. Rows
   * already stored are never touched.
   */
  lemma AddRowContents(rows: seq<UserWord>, row: UserWord)
    requires NoDuplicateKeys(rows)
    ensures var (added, after) := AddRow(rows, row);
            && (added <==> KeyOf(row) !in ToMap(rows))
            && after[..|rows|] == rows
            && ToMap(after) == if added then ToMap(rows)[KeyOf(row) := row] else ToMap(rows)
  {
    FindAgreesWithMap(rows, KeyOf(row));
    var all := rows + [row];
    if Find(rows, KeyOf(row)).None? {
      assert all[..|rows|] == rows && all[|rows|] == row;
      assert ToMap(all) == ToMap(rows)[KeyOf(row) := row];
    }
  }

  /** A saved row is what a later lookup of its key finds. */
  lemma AddRowThenFind(rows: seq<UserWord>, row: UserWord)
    ensures Find(AddRow(rows, row).1, KeyOf(row)).Some?
    ensures AddRow(rows, row).0 ==> Find(AddRow(rows, row).1, KeyOf(row)) == Some(row)
  {
    FindAppend(rows, row, KeyOf(row));
  }

  /** A second save of the same key is refused and leaves the table as the first save left it. */
  lemma SecondAddRefused(rows: seq<UserWord>, first: UserWord, second: UserWord)
    requires KeyOf(first) == KeyOf(second)
    ensures AddRow(AddRow(rows, first).1, second) == (false, AddRow(rows, first).1)
  {
    AddRowThenFind(rows, first);
  }

  /** Two saves address the same entry exactly when the words differ only in letter case. */
  lemma SameKeyIffEqualIgnoringCase(tgId: int, w1: string, w2: string, first: UserWord, second: UserWord)
    requires first == NewRow(tgId, w1, first.transcription, first.translation, first.example, first.audioUrl)
    requires second == NewRow(tgId, w2, second.transcription, second.translation, second.example, second.audioUrl)
    ensures KeyOf(first) == KeyOf(second) <==> EqualIgnoringCase(w1, w2)
  {
    LowerEqualIffEqualIgnoringCase(w1, w2);
  }

  // ---------------------------------------------------------------------------
  // Scoping by user

  /** A lookup for one user sees only that user's rows. */
  lemma {:induction false} FindScoped(rows: seq<UserWord>, k: Key)
    ensures Find(rows, k) == Find(RowsOf(rows, k.tgId), k)
    decreases |rows|
  {
    if rows != [] {
      FindScoped(rows[1..], k);
      if rows[0].tgId == k.tgId {
        var own := [rows[0]] + RowsOf(rows[1..], k.tgId);
        assert own[1..] == RowsOf(rows[1..], k.tgId);
      }
    }
  }

  /** Another user's row never makes a lookup succeed, wherever it sits in the table. */
  lemma OtherUsersRowIsInvisible(before: seq<UserWord>, row: UserWord, after: seq<UserWord>, k: Key)
    requires row.tgId != k.tgId
    ensures Find(before + [row] + after, k) == Find(before + after, k)
  {
    FindScoped(before + [row] + after, k);
    FindScoped(before + after, k);
    RowsOfConcat(before, [row] + after, k.tgId);
    RowsOfConcat(before, after, k.tgId);
    assert before + [row] + after == before + ([row] + after);
    assert ([row] + after)[1..] == after;
  }

  lemma {:induction false} RowsOfConcat(a: seq<UserWord>, b: seq<UserWord>, tgId: int)
    ensures RowsOf(a + b, tgId) == RowsOf(a, tgId) + RowsOf(b, tgId)
    decreases |a|
  {
    if a == [] {
      assert a + b == b;
    } else {
      assert (a + b)[0] == a[0] && (a + b)[1..] == a[1..] + b;
      RowsOfConcat(a[1..], b, tgId);
    }
  }

  // ---------------------------------------------------------------------------
  // The store

  /** The `user_words` table as the bot's requests see it. */
  class WordStore {
    var rows: seq<UserWord>

    ghost predicate Valid()
      reads this
    {
      TableInvariant(rows)
    }

    /** The abstract store: one record per (user, lower-cased word). */
    ghost function Contents(): map<Key, UserWord>
      reads this
    {
      ToMap(rows)
    }

    constructor ()
      ensures Valid() && rows == [] && Contents() == map[]
    {
      rows := [];
    }

    /** `is_word_in_db`: the row for this user and the lower-cased word, if any. */
    function IsWordInDb(tgId: int, word: string): (r: Option<UserWord>)
      reads this
      requires Valid()
      ensures r.Some? ==> r.value in rows && r.value.tgId == tgId && r.value.word == Lower(word)
      ensures r == if Key(tgId, Lower(word)) in Contents() then Some(Contents()[Key(tgId, Lower(word))]) else None
    {
      var k := Key(tgId, Lower(word));
      FindAgreesWithMap(rows, k);
      Find(rows, k)
    }

    /**
     * `get_word_from_db_or_api`: the stored record on a hit; on a miss, whatever
     * the dictionary API (`api`) answers for the lower-cased word.
     */
    function GetWordFromDbOrApi(tgId: int, word: string, api: string -> Option<WordData>): (r: Option<WordData>)
      reads this
      requires Valid()
      ensures Key(tgId, Lower(word)) in Contents() ==> r == Some(AsWordData(Contents()[Key(tgId, Lower(word))]))
      ensures Key(tgId, Lower(word)) !in Contents() ==> r == api(Lower(word))
    {
      var w := Lower(word);
      LowerIdempotent(word);
      var existing := IsWordInDb(tgId, w);
      if existing.Some? then Some(AsWordData(existing.value)) else
        api(w)
    }

    /** `add_user_word`: refuse a key that is present, otherwise store the lower-cased word with its four fields. */
    method AddUserWord(tgId: int, word: string, transcription: string, translation: string, example: string, audioUrl: string)
      returns (added: bool)
      requires Valid()
      modifies this
      ensures Valid()
      ensures (added, rows) == AddRow(old(rows), NewRow(tgId, word, transcription, translation, example, audioUrl))
      ensures added <==> Key(tgId, Lower(word)) !in old(Contents())
      ensures Contents() == if added
        then old(Contents())[Key(tgId, Lower(word)) := NewRow(tgId, word, transcription, translation, example, audioUrl)]
        else old(Contents())
      ensures IsWordInDb(tgId, word).Some?
    {
      var w := Lower(word);
      LowerIdempotent(word);
      ghost var row := NewRow(tgId, word, transcription, translation, example, audioUrl);
      AddRowKeepsInvariant(rows, row);
      AddRowContents(rows, row);
      AddRowThenFind(rows, row);
      var existing := IsWordInDb(tgId, w);
      if existing.Some? {
        return false;
      }
      rows := rows + [UserWord(tgId, w, transcription, translation, example, audioUrl)];
      return true;
    }
  }

  /** On a hit the API is never consulted: any two oracles give the same answer. */
  lemma HitIgnoresApi(store: WordStore, tgId: int, word: string, api1: string -> Option<WordData>, api2: string -> Option<WordData>)
    requires store.Valid() && store.IsWordInDb(tgId, word).Some?
    ensures store.GetWordFromDbOrApi(tgId, word, api1) == store.GetWordFromDbOrApi(tgId, word, api2)
    ensures store.GetWordFromDbOrApi(tgId, word, api1) == Some(AsWordData(store.IsWordInDb(tgId, word).value))
  {
  }

  /** Words that differ only in letter case look up the same record. */
  lemma LookupIgnoresCase(store: WordStore, tgId: int, w1: string, w2: string, api: string -> Option<WordData>)
    requires store.Valid() && EqualIgnoringCase(w1, w2)
    ensures store.IsWordInDb(tgId, w1) == store.IsWordInDb(tgId, w2)
    ensures store.GetWordFromDbOrApi(tgId, w1, api) == store.GetWordFromDbOrApi(tgId, w2, api)
  {
    LowerEqualIffEqualIgnoringCase(w1, w2);
  }
}
