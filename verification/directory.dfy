/**
 * The index page and the main loop.  For every handle, in dictionary order,
 * the main loop cuts out the conversation, remembers the text of its last
 * message and renders the page `chat-<rowid>.html`; the index then lists
 * every handle with a link to its page and a short preview of that text.
 *
 * Reading the page templates and writing the files are left out: a page is
 * the file name and the two values substituted into the template.
 */
module Directory {
  import opened Outcome
  import opened Text
  import opened Records
  import opened Loader
  import opened Conversation

  /** Previews longer than this are shortened. */
  const PreviewLimit: nat := 50

  /**
   * The preview of the index entry: the placeholder for None, the text
   * itself when it is short, else the text without newlines cut to the limit
   * and followed by "...".
   */
  function Preview(last: Option<string>): string {
    var msg := if last.None? then NoMessages else last.value;
    if |msg| > PreviewLimit then Take(RemoveAll(msg, '\n'), PreviewLimit) + "..." else msg
  }

  /**
   * A missing text shows the placeholder; a text of at most 50 characters is
   * shown verbatim, newlines included; a longer one is shown as at most 50
   * of its characters, none of them a newline, taken in order from its
   * start once the newlines are removed, followed by "...".
   */
  lemma PreviewRules(last: Option<string>)
    ensures last.None? ==> Preview(last) == NoMessages
    ensures last.Some? && |last.value| <= PreviewLimit ==> Preview(last) == last.value
    ensures last.Some? && |last.value| > PreviewLimit ==>
              var r := Preview(last);
              && 3 <= |r| <= PreviewLimit + 3
              && r[|r| - 3..] == "..."
              && '\n' !in r[..|r| - 3]
              && StartsWith(RemoveAll(last.value, '\n'), r[..|r| - 3])
              && |r| == (if |RemoveAll(last.value, '\n')| < PreviewLimit then |RemoveAll(last.value, '\n')| else PreviewLimit) + 3
  {
    if last.Some? && |last.value| > PreviewLimit {
      var kept := Take(RemoveAll(last.value, '\n'), PreviewLimit);
      assert (kept + "...")[..|kept|] == kept;
    }
  }

  /**
   * The length is measured before the newlines are removed: a text over the
   * limit gets "..." even when what remains would have fitted.
   */
  lemma PreviewEllipsisAfterStripping(s: string)
    requires |s| > PreviewLimit && |RemoveAll(s, '\n')| <= PreviewLimit
    ensures Preview(Some(s)) == RemoveAll(s, '\n') + "..."
  {
  }

  /** A long text without newlines keeps exactly its first 50 characters. */
  lemma PreviewLongWithoutNewlines(s: string)
    requires |s| > PreviewLimit && '\n' !in s
    ensures Preview(Some(s)) == s[..PreviewLimit] + "..."
  {
  }

  /** The file `chat-%i.html` holding the conversation with the handle of that ROWID. */
  function ChatFileName(rowid: int): (r: string)
    ensures StartsWith(r, "chat-")
  {
    "chat-" + IntToString(rowid) + ".html"
  }

  /** Distinct handles write distinct pages. */
  lemma ChatFileNameInjective(a: int, b: int)
    requires ChatFileName(a) == ChatFileName(b)
    ensures a == b
  {
    var fa := ChatFileName(a);
    var fb := ChatFileName(b);
    assert fa[5..|fa| - 5] == IntToString(a);
    assert fb[5..|fb| - 5] == IntToString(b);
    IntToStringInjective(a, b);
  }

  /** The `<li>` entry of one handle: a link to its page, its address and service, and the preview. */
  function Entry(h: Handle, preview: string): string {
    EntryHead + ChatFileName(h.rowid) + EntryTail(h, preview)
  }

  const EntryHead: string := "\n<li>\n            <a href=\""

  function EntryTail(h: Handle, preview: string): string {
    "\" role=\"button\" style=\"color: black\">\n"
      + "               <h3>" + h.id + " - " + Show(h.service) + "</h3>\n"
      + "               <p>" + preview + "</p>\n"
      + "            </a>\n"
      + "         </li>"
  }

  /** Each entry links to the page of its handle. */
  lemma EntryLinksChat(h: Handle, preview: string)
    ensures Contains(Entry(h, preview), ChatFileName(h.rowid))
  {
    ContainsMiddle(EntryHead, ChatFileName(h.rowid), EntryTail(h, preview));
  }

  /**
   * The entry of one handle, or KeyError when `last_messages` has no text
   * under its ROWID.
   */
  function EntryOf(last: map<int, Option<string>>, h: Handle): Result<string> {
    if h.rowid in last then Ok(Entry(h, Preview(last[h.rowid]))) else Err(KeyError)
  }

  /** The entry of each handle, as a function of the handle. */
  function EntryFn(last: map<int, Option<string>>): Handle -> Result<string> {
    h => EntryOf(last, h)
  }

  /**
   * The content after the first `n` of the handles `hs`, each rendered by
   * `entry`, or the first exception `entry` raises.
   */
  function Entries(hs: seq<Handle>, n: nat, entry: Handle -> Result<string>): Result<string>
    requires n <= |hs|
  {
    if n == 0 then Ok("")
    else
      var content :- Entries(hs, n - 1, entry);
      var e :- entry(hs[n - 1]);
      Ok(content + e)
  }

  /** `makeChoice(handles, last_messages)`. */
  function ChoiceHtml(handles: HandleDict, last: map<int, Option<string>>): Result<string>
    requires handles.WellFormed()
  {
    Entries(handles.Values(), |handles.keys|, EntryFn(last))
  }

  /** Once one handle's entry fails, the content fails with the same exception however many handles follow. */
  lemma {:induction false} EntriesErr(hs: seq<Handle>, i: nat, n: nat, entry: Handle -> Result<string>)
    requires i < n <= |hs|
    requires Entries(hs, i, entry).Ok? && entry(hs[i]).Err?
    ensures Entries(hs, n, entry) == Err(entry(hs[i]).error)
  {
    if n > i + 1 {
      EntriesErr(hs, i, n - 1, entry);
    }
  }

  /** The first `n` entries render exactly when each of them does, and otherwise fail with an exception of one of them. */
  lemma {:induction false} EntriesOkIff(hs: seq<Handle>, n: nat, entry: Handle -> Result<string>)
    requires n <= |hs|
    ensures Entries(hs, n, entry).Ok? <==> forall i :: 0 <= i < n ==> entry(hs[i]).Ok?
    ensures Entries(hs, n, entry).Err? ==> exists i :: 0 <= i < n && entry(hs[i]) == Err(Entries(hs, n, entry).error)
  {
    if n > 0 {
      EntriesOkIff(hs, n - 1, entry);
    }
  }

  /**
   * The index renders exactly when `last_messages` has a text for the ROWID
   * of every handle, and otherwise raises KeyError.
   */
  lemma ChoiceOkIff(handles: HandleDict, last: map<int, Option<string>>)
    requires handles.WellFormed()
    ensures ChoiceHtml(handles, last).Ok? <==> forall k :: k in handles.table ==> handles.table[k].rowid in last
    ensures ChoiceHtml(handles, last).Err? ==> ChoiceHtml(handles, last).error == KeyError
  {
    var hs := handles.Values();
    var entry := EntryFn(last);
    EntriesOkIff(hs, |hs|, entry);
    if ChoiceHtml(handles, last).Ok? {
      forall k | k in handles.table ensures handles.table[k].rowid in last {
        var i :| 0 <= i < |handles.keys| && handles.keys[i] == k;
        assert entry(hs[i]).Ok?;
      }
    } else {
      var i :| 0 <= i < |hs| && entry(hs[i]) == Err(ChoiceHtml(handles, last).error);
      assert handles.keys[i] in handles.table;
    }
  }

  /** The preview step of `makeChoice`, on the text found under one ROWID. */
  method PreviewOf(last: Option<string>) returns (msg: string)
    ensures msg == Preview(last)
  {
    msg := if last.None? then NoMessages else last.value;
    if |msg| > PreviewLimit {
      msg := Take(RemoveAll(msg, '\n'), PreviewLimit) + "...";
    }
  }

  /** One more handle whose ROWID has a text appends its entry. */
  lemma ChoiceStep(hs: seq<Handle>, i: nat, last: map<int, Option<string>>, content: string)
    requires i < |hs| && hs[i].rowid in last
    requires Entries(hs, i, EntryFn(last)) == Ok(content)
    ensures Entries(hs, i + 1, EntryFn(last)) == Ok(content + Entry(hs[i], Preview(last[hs[i].rowid])))
  {
    assert EntryFn(last)(hs[i]) == EntryOf(last, hs[i]);
  }

  /** A handle whose ROWID has no text makes the whole content fail with KeyError. */
  lemma ChoiceStop(hs: seq<Handle>, i: nat, last: map<int, Option<string>>)
    requires i < |hs| && hs[i].rowid !in last
    requires Entries(hs, i, EntryFn(last)).Ok?
    ensures Entries(hs, |hs|, EntryFn(last)) == Err(KeyError)
  {
    assert EntryFn(last)(hs[i]) == EntryOf(last, hs[i]);
    EntriesErr(hs, i, |hs|, EntryFn(last));
  }

  /** The loop of `makeChoice` over the handles `hs`. */
  method RenderEntries(hs: seq<Handle>, last: map<int, Option<string>>) returns (r: Result<string>)
    ensures r == Entries(hs, |hs|, EntryFn(last))
  {
    var content := "";
    for i := 0 to |hs|
      invariant Entries(hs, i, EntryFn(last)) == Ok(content)
    {
      var handle := hs[i];
      if handle.rowid !in last {
        ChoiceStop(hs, i, last);
        return Err(KeyError);
      }
      var msg := PreviewOf(last[handle.rowid]);
      ChoiceStep(hs, i, last, content);
      content := content + Entry(handle, msg);
    }
    return Ok(content);
  }

  /**
   * `makeChoice`: for each handle in the dictionary's order, the text under
   * its ROWID becomes a preview and the entry is appended to the content.
   */
  method MakeChoice(handles: HandleDict, last: map<int, Option<string>>) returns (r: Result<string>)
    requires handles.WellFormed()
    ensures r == ChoiceHtml(handles, last)
  {
    var values := handles.Values();
    r := RenderEntries(values, last);
  }

  /** Rendered entries contain the page name of each of their handles when every entry does. */
  lemma {:induction false} EntriesLinkEveryChat(hs: seq<Handle>, n: nat, entry: Handle -> Result<string>, i: nat)
    requires i < n <= |hs| && Entries(hs, n, entry).Ok?
    requires forall h :: entry(h).Ok? ==> Contains(entry(h).value, ChatFileName(h.rowid))
    ensures Contains(Entries(hs, n, entry).value, ChatFileName(hs[i].rowid))
  {
    var front := Entries(hs, n - 1, entry).value;
    var e := entry(hs[n - 1]).value;
    if i == n - 1 {
      ContainsAppendRight(front, e, ChatFileName(hs[i].rowid));
    } else {
      EntriesLinkEveryChat(hs, n - 1, entry, i);
      ContainsAppendLeft(front, e, ChatFileName(hs[i].rowid));
    }
  }

  /** A rendered index links to the page of every handle. */
  lemma ChoiceLinksEveryChat(handles: HandleDict, last: map<int, Option<string>>, k: int)
    requires handles.WellFormed() && ChoiceHtml(handles, last).Ok?
    requires forall k :: k in handles.table ==> handles.table[k].rowid == k
    requires k in handles.table
    ensures Contains(ChoiceHtml(handles, last).value, ChatFileName(k))
  {
    var entry := EntryFn(last);
    forall h | entry(h).Ok? ensures Contains(entry(h).value, ChatFileName(h.rowid)) {
      EntryLinksChat(h, Preview(last[h.rowid]));
    }
    var i :| 0 <= i < |handles.keys| && handles.keys[i] == k;
    EntriesLinkEveryChat(handles.Values(), |handles.keys|, entry, i);
  }

  /** `last_messages` once the main loop has run: each handle's last text, filed under its ROWID. */
  function LastMessages(handles: HandleDict, messages: seq<Message>): (last: map<int, Option<string>>)
    ensures forall k :: k in last <==> k in handles.table
  {
    map k | k in handles.table :: LastText(Slice(messages, handles.table[k]))
  }

  /** One conversation page: its file name and the `{HANDLE}` and `{CHAT}` values of the template. */
  datatype Page = Page(fileName: string, handleId: string, chat: string)

  /** The page of the handle filed under `k`, or the exception its rendering raises. */
  function PageOf(handles: HandleDict, messages: seq<Message>, env: Env, k: int): Result<Page>
    requires k in handles.table
  {
    var h := handles.table[k];
    var chat :- ConvHtml(Slice(messages, h), env);
    Ok(Page(ChatFileName(h.rowid), h.id, chat))
  }

  /**
   * The main loop: for each handle in dictionary order, record the last
   * message of its conversation and render the conversation's page.  An
   * exception from `makeConv` ends the program; it is returned here.
   */
  method MakeConversations(db: SMSDB, env: Env) returns (last: map<int, Option<string>>, pages: seq<Page>, err: Option<Exception>)
    requires db.Valid()
    ensures err.None? <==> forall i :: 0 <= i < |db.handles.keys| ==> PageOf(db.handles, db.messages, env, db.handles.keys[i]).Ok?
    ensures err.None? ==>
              && |pages| == |db.handles.keys|
              && (forall i :: 0 <= i < |pages| ==> Ok(pages[i]) == PageOf(db.handles, db.messages, env, db.handles.keys[i]))
              && last == LastMessages(db.handles, db.messages)
    ensures err.Some? ==>
              && |pages| < |db.handles.keys|
              && (forall i :: 0 <= i < |pages| ==> Ok(pages[i]) == PageOf(db.handles, db.messages, env, db.handles.keys[i]))
              && PageOf(db.handles, db.messages, env, db.handles.keys[|pages|]) == Err(err.value)
  {
    var handles, messages := db.handles, db.messages;
    var keys := handles.keys;
    last := map[];
    pages := [];
    for i := 0 to |keys|
      invariant |pages| == i
      invariant forall j :: 0 <= j < i ==> Ok(pages[j]) == PageOf(handles, messages, env, keys[j])
      invariant forall k :: k in last <==> k in keys[..i]
      invariant forall k :: k in last ==> k in handles.table && last[k] == LastText(Slice(messages, handles.table[k]))
    {
      KeyInTable(handles, i);
      var handle := handles.table[keys[i]];
      var consideringMessages := Slice(messages, handle);
      if consideringMessages != [] {
        last := last[handle.rowid := consideringMessages[|consideringMessages| - 1].message];
      } else {
        last := last[handle.rowid := Some(NoMessages)];
      }
      assert keys[..i + 1] == keys[..i] + [keys[i]];
      var chat := MakeConv(consideringMessages, env);
      if chat.Err? {
        err := Some(chat.error);
        return;
      }
      pages := pages + [Page(ChatFileName(handle.rowid), handle.id, chat.value)];
    }
    assert keys[..|keys|] == keys;
    assert forall k :: k in last <==> k in handles.table;
    assert forall k :: k in last ==> last[k] == LastMessages(handles, messages)[k];
    err := None;
  }

  /**
   * The whole export: the conversation pages, then the index.  Every page
   * written is linked from the index.
   */
  method Export(db: SMSDB, env: Env) returns (pages: seq<Page>, index: string, err: Option<Exception>)
    requires db.Valid()
    ensures err.None? <==> forall i :: 0 <= i < |db.handles.keys| ==> PageOf(db.handles, db.messages, env, db.handles.keys[i]).Ok?
    ensures err.None? ==>
              && |pages| == |db.handles.keys|
              && (forall i :: 0 <= i < |pages| ==> Ok(pages[i]) == PageOf(db.handles, db.messages, env, db.handles.keys[i]))
              && ChoiceHtml(db.handles, LastMessages(db.handles, db.messages)) == Ok(index)
              && forall i :: 0 <= i < |pages| ==> pages[i].fileName == ChatFileName(db.handles.keys[i]) && Contains(index, pages[i].fileName)
    ensures err.Some? ==>
              && |pages| < |db.handles.keys|
              && (forall i :: 0 <= i < |pages| ==> Ok(pages[i]) == PageOf(db.handles, db.messages, env, db.handles.keys[i]))
              && PageOf(db.handles, db.messages, env, db.handles.keys[|pages|]) == Err(err.value)
  {
    var last;
    last, pages, err := MakeConversations(db, env);
    index := "";
    if err.None? {
      ChoiceOkIff(db.handles, last);
      var choice := MakeChoice(db.handles, last);
      index := choice.value;
      forall i | 0 <= i < |pages|
        ensures pages[i].fileName == ChatFileName(db.handles.keys[i]) && Contains(index, pages[i].fileName)
      {
        ChoiceLinksEveryChat(db.handles, last, db.handles.keys[i]);
      }
    }
  }
}
