/**
 * The entities the loader builds: handles (a phone number or email address
 * on one service), the UNKNOWN sentinel, messages, and the raw rows the two
 * SQL queries return.  A message's attachment is looked up by a separate
 * query; here its result rows are given and the accessor keeps the first.
 */
module Records {
  import opened Outcome
  import opened Text
  import TimeCodec

  /** A correspondent: `id` is the phone number or address, `service` "SMS" or "iMessage". */
  datatype Handle = Handle(rowid: int, id: string, service: Option<string>, name: Option<string>)

  /** The sentinel for messages whose `handle_id` names no loaded handle. */
  const Unknown: Handle := Handle(0, "0", None, Some("Unknown"))

  /** One row of `SELECT ROWID, id, service, uncanonicalized_id FROM handle`. */
  datatype HandleRow = HandleRow(rowid: int, id: string, service: Option<string>, uncanonicalizedId: Option<string>)

  /** `Handle(rowid, id, service, name)` built from a row. */
  function HandleOf(row: HandleRow): Handle {
    Handle(row.rowid, row.id, row.service, row.uncanonicalizedId)
  }

  /** One row of the attachment query: `(filename, mime_type)`. */
  datatype AttachmentRow = AttachmentRow(filename: Option<string>, mimeType: Option<string>)

  /** `getAttachment`: the first row of the attachment query, or None when it returned nothing. */
  function GetAttachment(rows: seq<AttachmentRow>): (r: Option<AttachmentRow>)
    ensures r.None? <==> rows == []
    ensures r.Some? ==> r.value == rows[0]
  {
    if rows == [] then None else Some(rows[0])
  }

  /** Only the first row counts: whatever the query returns after it is ignored. */
  lemma GetAttachmentFirstWins(first: AttachmentRow, more: seq<AttachmentRow>)
    ensures GetAttachment([first] + more) == Some(first)
  {
  }

  /**
   * One row of `SELECT ROWID, text, handle_id, subject, service, account,
   * "date", is_delivered, is_from_me, is_read, is_audio_message FROM message`.
   * Every column but the ROWID may be NULL.
   */
  datatype MessageRow = MessageRow(
    rowid: int,
    text: Option<string>,
    handleId: Option<int>,
    subject: Option<string>,
    service: Option<string>,
    account: Option<string>,
    date: Option<int>,
    isDelivered: Option<int>,
    isFromMe: Option<int>,
    isRead: Option<int>,
    isAudioMessage: Option<int>)

  /**
   * A loaded message.  `dateRaw` keeps the raw tick count; the decoded
   * date the source stores beside it is the function `Day` of it.
   */
  datatype Message = Message(
    rowid: int,
    message: Option<string>,
    handle: Handle,
    account: Option<string>,
    dateRaw: int,
    service: Option<string>,
    subject: Option<string>,
    fromMe: bool,
    read: bool,
    delivered: bool,
    audio: bool)
  {
    /** `self.date.date()`: the UTC calendar day the message was sent on. */
    function Day(): int {
      TimeCodec.UtcDay(dateRaw)
    }
  }

  /** `bool(x)` of an integer column: NULL and 0 are false. */
  predicate Truthy(x: Option<int>) {
    x.Some? && x.value != 0
  }

  /** `handles.get(handle_id, UNKNOWN)`: a NULL or unknown `handle_id` gets the sentinel. */
  function LookupHandle(handleId: Option<int>, handles: map<int, Handle>): (h: Handle)
    ensures handleId.Some? && handleId.value in handles ==> h == handles[handleId.value]
    ensures handleId.None? || handleId.value !in handles ==> h == Unknown
  {
    if handleId.Some? && handleId.value in handles then handles[handleId.value] else Unknown
  }

  /**
   * `account.split(':')[1] if account else None`.  An absent or empty
   * account gives None; otherwise the text between the first and the second
   * ':' (or the end) is kept, and an account without any ':' raises IndexError.
   */
  function ParseAccount(account: Option<string>): (r: Result<Option<string>>)
    ensures r == Ok(None) <==> account == None || account == Some("")
    ensures r.Err? <==> account.Some? && account.value != "" && ':' !in account.value
    ensures r.Err? ==> r.error == IndexError
  {
    if account.None? || account.value == "" then Ok(None)
    else
      var parts := Split(account.value, ':');
      SplitJoinsBack(account.value, ':');
      SplitPiecesFree(account.value, ':');
      if |parts| < 2 then
        assert parts == [parts[0]];
        Err(IndexError)
      else
        assert account.value == parts[0] + [':'] + Join(parts[1..], ':');
        Ok(Some(parts[1]))
  }

  /** The first piece of a split is the longest prefix free of the separator. */
  lemma SplitFirst(s: string, sep: char)
    ensures var p := Split(s, sep)[0];
      StartsWith(s, p) && sep !in p && (|p| == |s| || s[|p|] == sep)
  {
    var r := Split(s, sep);
    SplitJoinsBack(s, sep);
    SplitPiecesFree(s, sep);
    if |r| > 1 {
      assert s == r[0] + [sep] + Join(r[1..], sep);
    }
  }

  /**
   * An account `tag:rest` whose protocol tag has no ':' yields the part of
   * `rest` before its first ':' (all of `rest` when it has none).
   */
  lemma ParseAccountField(tag: string, rest: string)
    requires ':' !in tag
    ensures var r := ParseAccount(Some(tag + ":" + rest));
      && r.Ok? && r.value.Some?
      && StartsWith(rest, r.value.value)
      && ':' !in r.value.value
      && (|r.value.value| == |rest| || rest[|r.value.value|] == ':')
  {
    var s := tag + ":" + rest;
    SplitPrefix(tag, ":" + rest, ':');
    assert s == tag + (":" + rest);
    assert Split(":" + rest, ':') == [""] + Split(rest, ':') by {
      assert (":" + rest)[1..] == rest;
    }
    SplitFirst(rest, ':');
  }

  /** `tag:address` with a single ':' gives the whole address. */
  lemma ParseAccountAddress(tag: string, address: string)
    requires ':' !in tag && ':' !in address
    ensures ParseAccount(Some(tag + ":" + address)) == Ok(Some(address))
  {
    ParseAccountField(tag, address);
    var p := ParseAccount(Some(tag + ":" + address)).value.value;
    assert forall i :: 0 <= i < |address| ==> address[i] != ':';
    assert |p| == |address|;
    assert address[..|address|] == address;
  }

  /** `tag:field:more` gives `field`: only the second ':'-separated field is kept. */
  lemma ParseAccountSecondField(tag: string, field: string, more: string)
    requires ':' !in tag && ':' !in field
    ensures ParseAccount(Some(tag + ":" + field + ":" + more)) == Ok(Some(field))
  {
    var rest := field + ":" + more;
    assert tag + ":" + field + ":" + more == tag + ":" + rest;
    ParseAccountField(tag, rest);
    var p := ParseAccount(Some(tag + ":" + rest)).value.value;
    assert rest[|field|] == ':';
    assert forall i :: 0 <= i < |field| ==> rest[i] == field[i] != ':';
    assert forall i :: 0 <= i < |p| ==> p[i] == rest[i] != ':';
    assert rest[..|field|] == field;
  }

  /** Two example accounts. */
  lemma ParseAccountExamples()
    ensures ParseAccount(Some("e:alice@x")) == Ok(Some("alice@x"))
    ensures ParseAccount(Some("a:b:c")) == Ok(Some("b"))
  {
    ParseAccountAddress("e", "alice@x");
    assert "e" + ":" + "alice@x" == "e:alice@x";
    ParseAccountSecondField("a", "b", "c");
    assert "a" + ":" + "b" + ":" + "c" == "a:b:c";
  }

  /**
   * One message from one row: the account is parsed first (IndexError); the
   * handle is `handles.get(handle_id, UNKNOWN)`; a NULL date makes
   * `date/10e8` raise TypeError; the integer flags become booleans and the
   * raw date is kept.
   */
  function MessageOf(row: MessageRow, handles: map<int, Handle>): Result<Message> {
    var account :- ParseAccount(row.account);
    var handle := LookupHandle(row.handleId, handles);
    if row.date.None? then Err(TypeError)
    else
      Ok(Message(
        row.rowid,
        row.text,
        handle,
        account,
        row.date.value,
        row.service,
        row.subject,
        Truthy(row.isFromMe),
        Truthy(row.isRead),
        Truthy(row.isDelivered),
        Truthy(row.isAudioMessage)))
  }

  /**
   * A row fails exactly when its account cannot be split (IndexError, which
   * comes first) or its date is NULL (TypeError).
   */
  lemma MessageOfErr(row: MessageRow, handles: map<int, Handle>)
    ensures MessageOf(row, handles).Err? <==> ParseAccount(row.account).Err? || row.date.None?
    ensures MessageOf(row, handles).Err? ==>
              MessageOf(row, handles).error == if ParseAccount(row.account).Err? then IndexError else TypeError
  {
  }
}
