/**
 * The SMSDB object: it fills its handle dictionary from the handle rows and
 * then its message list from the message rows, one message per row, in row
 * order.  The SQL queries are not modelled: their results are the row
 * sequences passed in.
 */
module Loader {
  import opened Outcome
  import opened Records

  /**
   * A Python dict from ROWID to Handle: the keys in insertion order (the order
   * `values()` walks) and the key-to-handle table.
   */
  datatype HandleDict = HandleDict(keys: seq<int>, table: map<int, Handle>) {
    /** What every dict satisfies: each key listed once, and exactly the keys of the table. */
    ghost predicate WellFormed() {
      && (forall i, j :: 0 <= i < j < |keys| ==> keys[i] != keys[j])
      && (forall k :: k in keys <==> k in table)
    }

    /** `d[k] = h`: a new key goes to the end of the order, an existing key keeps its place. */
    function Put(k: int, h: Handle): (d: HandleDict)
      ensures WellFormed() ==> d.WellFormed()
      ensures d.table == table[k := h]
      ensures |d.keys| == if k in table then |keys| else |keys| + 1
      ensures d.keys[..|keys|] == keys && (k !in table ==> d.keys[|keys|] == k)
    {
      HandleDict(if k in table then keys else keys + [k], table[k := h])
    }

    /** `values()`: the handles in insertion order. */
    function Values(): (vs: seq<Handle>)
      requires WellFormed()
      ensures |vs| == |keys|
      ensures forall i :: 0 <= i < |keys| ==> keys[i] in table && vs[i] == table[keys[i]]
    {
      assert forall i :: 0 <= i < |keys| ==> keys[i] in keys;
      seq(|keys|, i requires 0 <= i < |keys| => table[keys[i]])
    }

    /** `d.get(k, UNKNOWN)`. */
    function Get(k: Option<int>): (h: Handle)
      ensures h == LookupHandle(k, table)
    {
      if k.Some? && k.value in table then table[k.value] else Unknown
    }
  }

  /** Every listed key has an entry. */
  lemma KeyInTable(d: HandleDict, i: nat)
    requires d.WellFormed() && i < |d.keys|
    ensures d.keys[i] in d.table
  {
    assert d.keys[i] in d.keys;
  }

  const EmptyDict: HandleDict := HandleDict([], map[])

  /** The dictionary `retrieveHandles` builds: `handles[rowid] = Handle(...)` for each row in turn. */
  function HandleTable(rows: seq<HandleRow>): (d: HandleDict)
    ensures d.WellFormed()
    ensures forall k :: k in d.table ==> d.table[k].rowid == k
    ensures forall i :: 0 <= i < |rows| ==> rows[i].rowid in d.table
  {
    if rows == [] then EmptyDict
    else
      var last := rows[|rows| - 1];
      var prev := HandleTable(rows[..|rows| - 1]);
      assert forall i :: 0 <= i < |rows| - 1 ==> rows[..|rows| - 1][i] == rows[i];
      prev.Put(last.rowid, HandleOf(last))
  }

  /** Each row is one more assignment `handles[rowid] = Handle(...)`. */
  lemma HandleTableSnoc(rows: seq<HandleRow>, i: nat)
    requires i < |rows|
    ensures HandleTable(rows[..i + 1]) == HandleTable(rows[..i]).Put(rows[i].rowid, HandleOf(rows[i]))
  {
    assert rows[..i + 1][..i] == rows[..i];
  }

  /** The entry for a ROWID is the handle of the last row carrying that ROWID: later rows replace earlier ones. */
  lemma {:induction false} HandleTableLatest(rows: seq<HandleRow>, i: nat)
    requires i < |rows|
    requires forall j :: i < j < |rows| ==> rows[j].rowid != rows[i].rowid
    ensures HandleTable(rows).table[rows[i].rowid] == HandleOf(rows[i])
  {
    if i < |rows| - 1 {
      var prefix := rows[..|rows| - 1];
      assert prefix[i] == rows[i];
      forall j | i < j < |prefix| ensures prefix[j].rowid != prefix[i].rowid {
        assert prefix[j] == rows[j];
      }
      HandleTableLatest(prefix, i);
    }
  }

  /** The dictionary holds a key exactly for each ROWID that occurs in the rows. */
  lemma {:induction false} HandleTableKeys(rows: seq<HandleRow>)
    ensures forall k :: k in HandleTable(rows).table <==> exists i :: 0 <= i < |rows| && rows[i].rowid == k
  {
    if rows != [] {
      var prefix := rows[..|rows| - 1];
      HandleTableKeys(prefix);
      assert forall i :: 0 <= i < |prefix| ==> prefix[i] == rows[i];
    }
  }

  /** The ROWIDs of the rows, in row order. */
  function RowIds(rows: seq<HandleRow>): (ids: seq<int>)
    ensures |ids| == |rows| && forall i :: 0 <= i < |rows| ==> ids[i] == rows[i].rowid
  {
    if rows == [] then [] else RowIds(rows[..|rows| - 1]) + [rows[|rows| - 1].rowid]
  }

  /** With distinct ROWIDs each row adds its key at the end. */
  lemma {:induction false} HandleTableKeyOrder(rows: seq<HandleRow>)
    requires forall i, j :: 0 <= i < j < |rows| ==> rows[i].rowid != rows[j].rowid
    ensures HandleTable(rows).keys == RowIds(rows)
  {
    if rows != [] {
      var prefix := rows[..|rows| - 1];
      var last := rows[|rows| - 1];
      assert forall i :: 0 <= i < |prefix| ==> prefix[i] == rows[i];
      HandleTableKeyOrder(prefix);
      HandleTableKeys(prefix);
      assert last.rowid !in HandleTable(prefix).table;
      var d := HandleTable(prefix).Put(last.rowid, HandleOf(last));
      assert d.keys == d.keys[..|prefix|] + [d.keys[|prefix|]];
    }
  }

  /** With distinct ROWIDs (as SQLite guarantees) the dictionary lists the handles in row order. */
  lemma HandleTableOrder(rows: seq<HandleRow>)
    requires forall i, j :: 0 <= i < j < |rows| ==> rows[i].rowid != rows[j].rowid
    ensures |HandleTable(rows).keys| == |rows|
    ensures forall i :: 0 <= i < |rows| ==> HandleTable(rows).keys[i] == rows[i].rowid
    ensures forall i :: 0 <= i < |rows| ==> HandleTable(rows).table[rows[i].rowid] == HandleOf(rows[i])
  {
    HandleTableKeyOrder(rows);
    forall i | 0 <= i < |rows| ensures HandleTable(rows).table[rows[i].rowid] == HandleOf(rows[i]) {
      HandleTableLatest(rows, i);
    }
  }

  /** The messages `retrieveMessages` builds: one per row, in row order, or the first exception. */
  function LoadMessages(rows: seq<MessageRow>, handles: map<int, Handle>): Result<seq<Message>>
  {
    if rows == [] then Ok([])
    else
      var ms :- LoadMessages(rows[..|rows| - 1], handles);
      var m :- MessageOf(rows[|rows| - 1], handles);
      Ok(ms + [m])
  }

  /**
   * Loading fails exactly when some row's account is non-empty and has no
   * ':' or its date is NULL, and then with IndexError or TypeError.
   */
  lemma {:induction false} LoadMessagesOkIff(rows: seq<MessageRow>, handles: map<int, Handle>)
    ensures LoadMessages(rows, handles).Ok? <==>
            forall i :: 0 <= i < |rows| ==> ParseAccount(rows[i].account).Ok? && rows[i].date.Some?
    ensures LoadMessages(rows, handles).Err? ==> LoadMessages(rows, handles).error in {IndexError, TypeError}
  {
    if rows != [] {
      var prefix := rows[..|rows| - 1];
      LoadMessagesOkIff(prefix, handles);
      MessageOfErr(rows[|rows| - 1], handles);
      assert forall i :: 0 <= i < |prefix| ==> prefix[i] == rows[i];
    }
  }

  /** When the rows before row `n` load and row `n` fails, the whole load fails with row `n`'s exception. */
  lemma {:induction false} LoadMessagesErrPrefix(rows: seq<MessageRow>, handles: map<int, Handle>, n: nat, e: Exception)
    requires n < |rows|
    requires LoadMessages(rows[..n], handles).Ok? && MessageOf(rows[n], handles) == Err(e)
    ensures LoadMessages(rows, handles) == Err(e)
  {
    var prefix := rows[..|rows| - 1];
    if n + 1 == |rows| {
      assert prefix == rows[..n];
    } else {
      assert prefix[..n] == rows[..n] && prefix[n] == rows[n];
      LoadMessagesErrPrefix(prefix, handles, n, e);
    }
  }

  /**
   * A successful load yields exactly one message per row, in row order: the
   * message keeps the row's ROWID, text, service, subject and raw date, its
   * handle is `handles.get(handle_id, UNKNOWN)`, its account is the parsed
   * account and its flags are the truth of the integer columns.
   */
  lemma {:induction false} LoadMessagesRows(rows: seq<MessageRow>, handles: map<int, Handle>)
    requires LoadMessages(rows, handles).Ok?
    ensures var ms := LoadMessages(rows, handles).value;
      && |ms| == |rows|
      && forall i :: 0 <= i < |rows| ==>
           && ms[i].rowid == rows[i].rowid
           && ms[i].message == rows[i].text
           && ms[i].handle == LookupHandle(rows[i].handleId, handles)
           && ParseAccount(rows[i].account) == Ok(ms[i].account)
           && rows[i].date == Some(ms[i].dateRaw)
           && ms[i].service == rows[i].service
           && ms[i].subject == rows[i].subject
           && ms[i].fromMe == (rows[i].isFromMe.Some? && rows[i].isFromMe.value != 0)
           && ms[i].read == (rows[i].isRead.Some? && rows[i].isRead.value != 0)
           && ms[i].delivered == (rows[i].isDelivered.Some? && rows[i].isDelivered.value != 0)
           && ms[i].audio == (rows[i].isAudioMessage.Some? && rows[i].isAudioMessage.value != 0)
  {
    if rows != [] {
      var prefix := rows[..|rows| - 1];
      LoadMessagesRows(prefix, handles);
      assert forall i :: 0 <= i < |prefix| ==> prefix[i] == rows[i];
    }
  }

  /** A message whose `handle_id` is NULL or not a loaded ROWID gets the UNKNOWN sentinel; loading never fails for that. */
  lemma UnknownHandleFallback(row: MessageRow, handles: map<int, Handle>)
    requires row.handleId.None? || row.handleId.value !in handles
    requires ParseAccount(row.account).Ok? && row.date.Some?
    ensures MessageOf(row, handles).Ok?
    ensures MessageOf(row, handles).value.handle == Unknown
    ensures Unknown.rowid == 0 && Unknown.id == "0" && Unknown.service == None
  {
  }

  /** The SMS database: its handle dictionary and its message list. */
  class SMSDB {
    var handles: HandleDict
    var messages: seq<Message>

    /** The dictionary is a dictionary, and each handle is filed under its own ROWID. */
    ghost predicate Valid()
      reads this
    {
      handles.WellFormed() && forall k :: k in handles.table ==> handles.table[k].rowid == k
    }

    /** The object before its two retrieve calls have run. */
    constructor ()
      ensures Valid()
      ensures handles == EmptyDict && messages == []
    {
      handles := EmptyDict;
      messages := [];
    }

    /** `retrieveHandles`: a fresh dictionary, one assignment per handle row. */
    method RetrieveHandles(rows: seq<HandleRow>)
      modifies this`handles
      ensures Valid()
      ensures handles == HandleTable(rows)
      ensures messages == old(messages)
    {
      handles := EmptyDict;
      for i := 0 to |rows|
        invariant handles == HandleTable(rows[..i])
      {
        var row := rows[i];
        HandleTableSnoc(rows, i);
        handles := handles.Put(row.rowid, HandleOf(row));
      }
      assert rows[..|rows|] == rows;
    }

    /**
     * `retrieveMessages`: a fresh list, one appended message per row.  An
     * account without ':' (IndexError) or a NULL date (TypeError) raises out
     * of the loop, leaving the messages of the rows before it.
     */
    method RetrieveMessages(rows: seq<MessageRow>) returns (err: Option<Exception>)
      modifies this`messages
      ensures Valid() == old(Valid())
      ensures handles == old(handles)
      ensures err.None? <==> LoadMessages(rows, handles.table).Ok?
      ensures err.None? ==> messages == LoadMessages(rows, handles.table).value
      ensures err.Some? ==>
                && |messages| < |rows|
                && LoadMessages(rows[..|messages|], handles.table) == Ok(messages)
                && MessageOf(rows[|messages|], handles.table) == Err(err.value)
      ensures err.Some? ==> LoadMessages(rows, handles.table) == Err(err.value)
    {
      messages := [];
      for i := 0 to |rows|
        invariant handles == old(handles)
        invariant |messages| == i
        invariant LoadMessages(rows[..i], handles.table) == Ok(messages)
      {
        var row := rows[i];
        assert rows[..i + 1][..i] == rows[..i];
        var account := ParseAccount(row.account);
        if account.Err? {
          LoadMessagesOkIff(rows, handles.table);
          LoadMessagesErrPrefix(rows, handles.table, i, account.error);
          return Some(account.error);
        }
        var handle := handles.Get(row.handleId);
        if row.date.None? {
          LoadMessagesOkIff(rows, handles.table);
          LoadMessagesErrPrefix(rows, handles.table, i, TypeError);
          return Some(TypeError);
        }
        var message := Message(
          row.rowid,
          row.text,
          handle,
          account.value,
          row.date.value,
          row.service,
          row.subject,
          Truthy(row.isFromMe),
          Truthy(row.isRead),
          Truthy(row.isDelivered),
          Truthy(row.isAudioMessage));
        messages := messages + [message];
      }
      assert rows[..|rows|] == rows;
      return None;
    }
  }

  /** `SMSDB(path)`: retrieve the handles, then the messages; an exception from the latter aborts the whole load. */
  method Open(handleRows: seq<HandleRow>, messageRows: seq<MessageRow>) returns (db: SMSDB, err: Option<Exception>)
    ensures fresh(db) && db.Valid()
    ensures db.handles == HandleTable(handleRows)
    ensures err.None? <==> LoadMessages(messageRows, db.handles.table).Ok?
    ensures err.None? ==> db.messages == LoadMessages(messageRows, db.handles.table).value
    ensures err.Some? ==> LoadMessages(messageRows, db.handles.table) == Err(err.value)
  {
    db := new SMSDB();
    db.RetrieveHandles(handleRows);
    err := db.RetrieveMessages(messageRows);
  }
}
