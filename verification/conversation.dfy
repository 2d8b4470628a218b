/**
 * One conversation page: the messages exchanged with one handle, rendered
 * as a run of chat bubbles with a date header at the start of each calendar
 * day.  A message with an attachment shows an image, audio or video
 * element, or a link, for the attachment file rerooted under the configured
 * attachments directory.
 *
 * The renderer's surroundings are the parameters in `Env`: the `-a`
 * directory, the attachment query (by message ROWID), `os.path.realpath`
 * (which consults the file system) and the `strftime` label of a day.
 */
module Conversation {
  import opened Outcome
  import opened Text
  import opened Records
  import opened Paths

  datatype Env = Env(
    attachmentPath: Option<string>,
    attachmentQuery: int -> seq<AttachmentRow>,
    realpath: string -> string,
    dayLabel: int -> string)

  const NoMessages: string := "<i>No Messages</i>"
  const AttachmentPlaceholder: string := "<i>Attachment</i>"
  const AttachmentNotFound: string := "<i>Attachment not found</i>"
  const UnknownAttachment: string := "<i>Unknown attachent</i>"

  // ---------------------------------------------------------------- slicing

  /** The message belongs to the conversation with `h`: same address and same service. */
  predicate SameContact(m: Message, h: Handle) {
    m.handle.id == h.id && m.handle.service == h.service
  }

  /** `list(filter(lambda m: ..., messages))`: the conversation with `h`, in message order. */
  function Slice(ms: seq<Message>, h: Handle): (r: seq<Message>)
    ensures |r| <= |ms|
    ensures forall i :: 0 <= i < |r| ==> SameContact(r[i], h)
    ensures forall m :: m in r <==> m in ms && SameContact(m, h)
  {
    if ms == [] then []
    else
      var prev := Slice(ms[..|ms| - 1], h);
      assert ms == ms[..|ms| - 1] + [ms[|ms| - 1]];
      if SameContact(ms[|ms| - 1], h) then prev + [ms[|ms| - 1]] else prev
  }

  /** Filtering commutes with concatenation: the slice keeps the messages' relative order. */
  lemma {:induction false} SliceAppend(xs: seq<Message>, ys: seq<Message>, h: Handle)
    ensures Slice(xs + ys, h) == Slice(xs, h) + Slice(ys, h)
  {
    if ys != [] {
      var zs := ys[..|ys| - 1];
      SliceAppend(xs, zs, h);
      assert (xs + ys)[..|xs + ys| - 1] == xs + zs;
    } else {
      assert xs + ys == xs;
    }
  }

  /** A message of the conversation is kept, any other is dropped. */
  lemma SliceSingle(m: Message, h: Handle)
    ensures Slice([m], h) == if SameContact(m, h) then [m] else []
  {
    assert [m][..0] == [];
  }

  /** Two handles with the same address and service share one conversation. */
  lemma {:induction false} SliceSameContact(ms: seq<Message>, h1: Handle, h2: Handle)
    requires h1.id == h2.id && h1.service == h2.service
    ensures Slice(ms, h1) == Slice(ms, h2)
  {
    if ms != [] {
      SliceSameContact(ms[..|ms| - 1], h1, h2);
    }
  }

  /** `last_messages[rowid]`: the text of the last message of the slice, or the placeholder when it is empty. */
  function LastText(slice: seq<Message>): (r: Option<string>)
    ensures slice == [] ==> r == Some(NoMessages)
    ensures slice != [] ==> r == slice[|slice| - 1].message
  {
    if slice == [] then Some(NoMessages) else slice[|slice| - 1].message
  }

  /** The preview of a conversation is the text of the latest message exchanged with the handle. */
  lemma {:induction false} LastTextIsLatest(ms: seq<Message>, h: Handle, j: nat)
    requires j < |ms| && SameContact(ms[j], h)
    requires forall k :: j < k < |ms| ==> !SameContact(ms[k], h)
    ensures LastText(Slice(ms, h)) == ms[j].message
  {
    if j < |ms| - 1 {
      var prefix := ms[..|ms| - 1];
      assert prefix[j] == ms[j];
      forall k | j < k < |prefix| ensures !SameContact(prefix[k], h) {
        assert prefix[k] == ms[k];
      }
      LastTextIsLatest(prefix, h, j);
    }
  }

  /** A handle with whom no message was exchanged gets the "No Messages" placeholder. */
  lemma {:induction false} LastTextNoMessages(ms: seq<Message>, h: Handle)
    requires forall k :: 0 <= k < |ms| ==> !SameContact(ms[k], h)
    ensures LastText(Slice(ms, h)) == Some(NoMessages)
  {
    if ms != [] {
      LastTextNoMessages(ms[..|ms| - 1], h);
    }
  }

  // ----------------------------------------------------------- message text

  /** The `<img>` element for an image attachment, as a link opening the file in a new tab. */
  function ImageHtml(path: string): string {
    "<a href=\"" + path + "\" target=\"_blank\"> <img class=\"sent_image\" src=\"" + path + "\"/> </a>"
  }

  function AudioHtml(path: string): string {
    "<audio controls src=\"" + path + "\"> Your browser does not support the <code>audio</code> element. </audio>"
  }

  function VideoHtml(path: string): string {
    "<video controls class=\"sent_video\"><source src=\"" + path
      + "\"></source>Your browser does not support the <code>video</code> element.</video>"
  }

  /** The link shown for an attachment of any other type. */
  function LinkHtml(path: string): string {
    "<a href=\"" + path + "\" target=\"_blank\"><i>Attachment</i></a>"
  }

  predicate HasPrefix(mime: Option<string>, prefix: string) {
    mime.Some? && StartsWith(mime.value, prefix)
  }

  /**
   * The element for an attachment found at `abspath` (resolving to `resolved`):
   * chosen by the MIME type's prefix; a file of another type gets a link when
   * its path is non-empty and otherwise leaves `body` in place.
   */
  function MediaHtml(mime: Option<string>, resolved: string, abspath: string, body: string): string {
    if HasPrefix(mime, "image/") then ImageHtml(resolved)
    else if HasPrefix(mime, "audio/") then AudioHtml(resolved)
    else if HasPrefix(mime, "video/") then VideoHtml(resolved)
    else if abspath != "" then LinkHtml(resolved)
    else body
  }

  /**
   * The text shown for an attachment when an attachments directory `base`
   * is configured: a missing file name makes `realpath(None)` raise
   * TypeError, which is caught; otherwise the path is rerooted (which may
   * raise ValueError) and resolved.
   */
  function AttachmentText(att: AttachmentRow, base: string, realpath: string -> string, body: string): (r: Result<string>)
    ensures att.filename.None? ==> r == Ok(AttachmentNotFound)
    ensures r.Err? <==> att.filename.Some? && Reroot(base, att.filename.value).Err?
    ensures r.Err? ==> r.error == ValueError
  {
    match att.filename
    case None => Ok(AttachmentNotFound)
    case Some(path) =>
      var abspath :- Reroot(base, path);
      Ok(MediaHtml(att.mimeType, realpath(abspath), abspath, body))
  }

  /** `base` is set and non-empty, so the `if attachment_path:` branch is taken. */
  predicate Configured(env: Env) {
    env.attachmentPath.Some? && env.attachmentPath.value != ""
  }

  /**
   * The bubble text of a message: its own text (`None` shown as "None")
   * unless the attachment query returns a row; then the placeholder when no
   * attachments directory is configured, else the attachment's element.
   */
  function MessageText(m: Message, env: Env): (r: Result<string>)
    ensures GetAttachment(env.attachmentQuery(m.rowid)).None? ==> r == Ok(Show(m.message))
    ensures GetAttachment(env.attachmentQuery(m.rowid)).Some? && !Configured(env) ==> r == Ok(AttachmentPlaceholder)
    ensures r.Err? <==>
              && env.attachmentQuery(m.rowid) != []
              && Configured(env)
              && env.attachmentQuery(m.rowid)[0].filename.Some?
              && Contains(env.attachmentQuery(m.rowid)[0].filename.value, AttachmentsDir)
              && AttachmentsDir !in Split(env.attachmentQuery(m.rowid)[0].filename.value, '/')
    ensures r.Err? ==> r.error == ValueError
  {
    match GetAttachment(env.attachmentQuery(m.rowid))
    case None => Ok(Show(m.message))
    case Some(att) =>
      if !Configured(env) then Ok(AttachmentPlaceholder)
      else AttachmentText(att, env.attachmentPath.value, env.realpath, Show(m.message))
  }

  /**
   * The attachment branch of `makeConv` step by step: the path is split, the
   * segments up to the first `Attachments` are deleted from the list, the
   * rest is joined under the base, and the MIME type picks the element.
   */
  method MessageTextOf(m: Message, env: Env) returns (r: Result<string>)
    ensures r == MessageText(m, env)
  {
    var messageText := Show(m.message);
    var attachment := GetAttachment(env.attachmentQuery(m.rowid));
    if attachment.Some? {
      if Configured(env) {
        var base := env.attachmentPath.value;
        var path := attachment.value.filename;
        var mime := attachment.value.mimeType;
        var abspath: Option<string>;
        if path.None? {
          messageText := UnknownAttachment;
          abspath := None;
        } else if Contains(path.value, AttachmentsDir) {
          var segments := Split(path.value, '/');
          var k := FirstIndex(segments, AttachmentsDir);
          if k.None? {
            return Err(ValueError);
          }
          segments := segments[k.value + 1..];
          abspath := Some(PathJoin(base, Join(segments, '/')));
        } else {
          abspath := path;
        }
        if abspath.None? {
          messageText := AttachmentNotFound;
        } else {
          var attachmentFilepath := env.realpath(abspath.value);
          if HasPrefix(mime, "image/") {
            messageText := ImageHtml(attachmentFilepath);
          } else if HasPrefix(mime, "audio/") {
            messageText := AudioHtml(attachmentFilepath);
          } else if HasPrefix(mime, "video/") {
            messageText := VideoHtml(attachmentFilepath);
          } else if abspath.value != "" {
            messageText := LinkHtml(env.realpath(abspath.value));
          }
        }
      } else {
        messageText := AttachmentPlaceholder;
      }
    }
    return Ok(messageText);
  }

  /**
   * An image, audio or video file is shown by the element of its kind,
   * pointing at its resolved path, whatever that path was rerooted to.
   */
  lemma MediaElement(m: Message, env: Env, path: string, abspath: string, kind: string, sub: string)
    requires kind == "image/" || kind == "audio/" || kind == "video/"
    requires Configured(env)
    requires env.attachmentQuery(m.rowid) != []
    requires env.attachmentQuery(m.rowid)[0].filename == Some(path)
    requires env.attachmentQuery(m.rowid)[0].mimeType == Some(kind + sub)
    requires Reroot(env.attachmentPath.value, path) == Ok(abspath)
    ensures var resolved := env.realpath(abspath);
      MessageText(m, env) == Ok(if kind == "image/" then ImageHtml(resolved)
                                else if kind == "audio/" then AudioHtml(resolved)
                                else VideoHtml(resolved))
  {
    var mime := kind + sub;
    assert mime[..6] == kind;
    assert StartsWith(mime, kind);
    assert mime[0] == kind[0];
  }

  /**
   * An image, audio or video file stored on the phone under
   * `.../Attachments/rest` is shown by the element of its kind, pointing at
   * the resolved `base/rest`.
   */
  lemma MediaUnderBase(m: Message, env: Env, prefix: string, rest: string, kind: string, sub: string)
    requires kind == "image/" || kind == "audio/" || kind == "video/"
    requires Configured(env)
    requires env.attachmentQuery(m.rowid) != []
    requires env.attachmentQuery(m.rowid)[0].filename == Some(prefix + "/" + AttachmentsDir + "/" + rest)
    requires env.attachmentQuery(m.rowid)[0].mimeType == Some(kind + sub)
    requires AttachmentsDir !in Split(prefix, '/')
    ensures var resolved := env.realpath(PathJoin(env.attachmentPath.value, rest));
      MessageText(m, env) == Ok(if kind == "image/" then ImageHtml(resolved)
                                else if kind == "audio/" then AudioHtml(resolved)
                                else VideoHtml(resolved))
  {
    RerootUnderBase(env.attachmentPath.value, prefix, rest);
    MediaElement(m, env, prefix + "/" + AttachmentsDir + "/" + rest, PathJoin(env.attachmentPath.value, rest), kind, sub);
  }

  /**
   * Whatever its MIME type, an attachment without a file name shows
   * "Attachment not found": the "Unknown attachent" text set first is
   * always overwritten.
   */
  lemma MissingFileName(m: Message, env: Env)
    requires Configured(env)
    requires env.attachmentQuery(m.rowid) != []
    requires env.attachmentQuery(m.rowid)[0].filename.None?
    ensures MessageText(m, env) == Ok(AttachmentNotFound)
  {
  }

  /**
   * An attachment with a non-empty path whose type is not image, audio or
   * video is shown as a link to its resolved path; with an empty path the
   * message's own text stays.
   */
  lemma OtherTypeLink(m: Message, env: Env, path: string)
    requires Configured(env)
    requires env.attachmentQuery(m.rowid) != []
    requires env.attachmentQuery(m.rowid)[0].filename == Some(path)
    requires !Contains(path, AttachmentsDir)
    requires var mime := env.attachmentQuery(m.rowid)[0].mimeType;
      !HasPrefix(mime, "image/") && !HasPrefix(mime, "audio/") && !HasPrefix(mime, "video/")
    ensures path != "" ==> MessageText(m, env) == Ok(LinkHtml(env.realpath(path)))
    ensures path == "" ==> MessageText(m, env) == Ok(Show(m.message))
  {
  }

  /**
   * A file of any other type is shown as a link to its resolved path when
   * the rerooted path is non-empty; otherwise the message's own text stays.
   */
  lemma OtherTypeElement(m: Message, env: Env, path: string, abspath: string)
    requires Configured(env)
    requires env.attachmentQuery(m.rowid) != []
    requires env.attachmentQuery(m.rowid)[0].filename == Some(path)
    requires Reroot(env.attachmentPath.value, path) == Ok(abspath)
    requires var mime := env.attachmentQuery(m.rowid)[0].mimeType;
      !HasPrefix(mime, "image/") && !HasPrefix(mime, "audio/") && !HasPrefix(mime, "video/")
    ensures abspath != "" ==> MessageText(m, env) == Ok(LinkHtml(env.realpath(abspath)))
    ensures abspath == "" ==> MessageText(m, env) == Ok(Show(m.message))
  {
  }

  /**
   * A file of any other type stored on the phone under `.../Attachments/rest`
   * (a PDF, a vCard) is shown as a link to the resolved `base/rest`, which is
   * never empty.
   */
  lemma OtherTypeUnderBase(m: Message, env: Env, prefix: string, rest: string)
    requires Configured(env)
    requires env.attachmentQuery(m.rowid) != []
    requires env.attachmentQuery(m.rowid)[0].filename == Some(prefix + "/" + AttachmentsDir + "/" + rest)
    requires AttachmentsDir !in Split(prefix, '/')
    requires var mime := env.attachmentQuery(m.rowid)[0].mimeType;
      !HasPrefix(mime, "image/") && !HasPrefix(mime, "audio/") && !HasPrefix(mime, "video/")
    ensures MessageText(m, env) == Ok(LinkHtml(env.realpath(PathJoin(env.attachmentPath.value, rest))))
  {
    var base := env.attachmentPath.value;
    RerootUnderBase(base, prefix, rest);
    var abspath := PathJoin(base, rest);
    if StartsWith(rest, "/") {
      assert abspath == rest;
    }
    assert abspath != "";
    OtherTypeElement(m, env, prefix + "/" + AttachmentsDir + "/" + rest, abspath);
  }

  // -------------------------------------------------------------- rendering

  /** A date header goes before message `i` when it is the first or starts a new UTC day. */
  predicate HeaderAt(ms: seq<Message>, i: nat)
    requires i < |ms|
  {
    i == 0 || ms[i].Day() != ms[i - 1].Day()
  }

  function DateHeader(caption: string): string {
    "<p class=\"date\">" + caption + "</p>"
  }

  /** The chat bubble: class `<service>-from-me last` for sent messages, `<service>-to-me last` otherwise. */
  function Bubble(service: string, fromMe: bool, text: string): string {
    if fromMe then "<p class=\"" + service + "-from-me last\">" + text + "</p>"
    else "<p class=\"" + service + "-to-me last\">" + text + "</p>"
  }

  /**
   * The HTML of one message: `service.lower()` (AttributeError when the
   * service is NULL) before anything else, then the date header if the
   * message opens a new day, then the bubble.
   */
  function BlockOf(m: Message, newDay: bool, env: Env): Result<string> {
    if m.service.None? then Err(AttributeError)
    else
      var header := if newDay then DateHeader(env.dayLabel(m.Day())) else "";
      var text :- MessageText(m, env);
      Ok(header + Bubble(Lower(m.service.value), m.fromMe, text))
  }

  /** The HTML of message `i` of the conversation. */
  function Block(ms: seq<Message>, i: nat, env: Env): Result<string>
    requires i < |ms|
  {
    BlockOf(ms[i], HeaderAt(ms, i), env)
  }

  /** The content after the first `n` messages: their blocks in order, or the first exception. */
  function RenderPrefix(ms: seq<Message>, n: nat, env: Env): Result<string>
    requires n <= |ms|
  {
    if n == 0 then Ok("")
    else
      var content :- RenderPrefix(ms, n - 1, env);
      var block :- Block(ms, n - 1, env);
      Ok(content + block)
  }

  /** `makeConv(messages)`. */
  function ConvHtml(ms: seq<Message>, env: Env): Result<string> {
    RenderPrefix(ms, |ms|, env)
  }

  /** Once a message fails, rendering fails with the same exception however many messages follow. */
  lemma {:induction false} RenderPrefixErr(ms: seq<Message>, i: nat, n: nat, env: Env)
    requires i < n <= |ms|
    requires RenderPrefix(ms, i, env).Ok? && Block(ms, i, env).Err?
    ensures RenderPrefix(ms, n, env) == Err(Block(ms, i, env).error)
  {
    if n > i + 1 {
      RenderPrefixErr(ms, i, n - 1, env);
    }
  }

  /** A block fails exactly when the service is NULL (AttributeError) or the attachment path cannot be rerooted (ValueError). */
  lemma BlockErr(m: Message, newDay: bool, env: Env)
    ensures BlockOf(m, newDay, env).Err? <==> m.service.None? || MessageText(m, env).Err?
    ensures BlockOf(m, newDay, env).Err? ==> BlockOf(m, newDay, env).error == (if m.service.None? then AttributeError else ValueError)
  {
  }

  /** The block of a message that renders: optional header, then the bubble with the lower-cased service. */
  lemma BlockOk(m: Message, newDay: bool, env: Env)
    requires m.service.Some? && MessageText(m, env).Ok?
    ensures BlockOf(m, newDay, env) == Ok((if newDay then DateHeader(env.dayLabel(m.Day())) else "")
                                          + Bubble(Lower(m.service.value), m.fromMe, MessageText(m, env).value))
  {
  }

  lemma RenderPrefixStep(ms: seq<Message>, i: nat, env: Env, content: string, block: string)
    requires i < |ms| && RenderPrefix(ms, i, env) == Ok(content) && Block(ms, i, env) == Ok(block)
    ensures RenderPrefix(ms, i + 1, env) == Ok(content + block)
  {
  }

  /**
   * `makeConv`: the content accumulator and the day of the previous message,
   * a header whenever the day differs from it, and one bubble per message.
   */
  method MakeConv(ms: seq<Message>, env: Env) returns (r: Result<string>)
    ensures r == ConvHtml(ms, env)
  {
    var content := "";
    var date: Option<int> := None;
    for i := 0 to |ms|
      invariant RenderPrefix(ms, i, env) == Ok(content)
      invariant date == if i == 0 then None else Some(ms[i - 1].Day())
    {
      var msg := ms[i];
      var messageHtml := "";
      var newDay := date != Some(msg.Day());
      assert Block(ms, i, env) == BlockOf(msg, newDay, env);
      if msg.service.None? {
        BlockErr(msg, newDay, env);
        RenderPrefixErr(ms, i, |ms|, env);
        return Err(AttributeError);
      }
      var service := Lower(msg.service.value);
      if newDay {
        messageHtml := messageHtml + DateHeader(env.dayLabel(msg.Day()));
        date := Some(msg.Day());
      }
      assert messageHtml == if newDay then DateHeader(env.dayLabel(msg.Day())) else "";
      var messageText := MessageTextOf(msg, env);
      if messageText.Err? {
        BlockErr(msg, newDay, env);
        RenderPrefixErr(ms, i, |ms|, env);
        return Err(messageText.error);
      }
      messageHtml := messageHtml + Bubble(service, msg.fromMe, messageText.value);
      BlockOk(msg, newDay, env);
      RenderPrefixStep(ms, i, env, content, messageHtml);
      content := content + messageHtml;
    }
    return Ok(content);
  }

  /** An empty conversation renders as the empty string. */
  lemma ConvHtmlEmpty(env: Env)
    ensures ConvHtml([], env) == Ok("")
  {
  }

  /** Rendering succeeds exactly when every message's block renders. */
  lemma {:induction false} RenderPrefixOkIff(ms: seq<Message>, n: nat, env: Env)
    requires n <= |ms|
    ensures RenderPrefix(ms, n, env).Ok? <==> forall i :: 0 <= i < n ==> Block(ms, i, env).Ok?
  {
    if n > 0 {
      RenderPrefixOkIff(ms, n - 1, env);
    }
  }

  /** A failed rendering fails with the exception of some message's block. */
  lemma {:induction false} RenderPrefixErrFrom(ms: seq<Message>, n: nat, env: Env) returns (i: nat)
    requires n <= |ms| && RenderPrefix(ms, n, env).Err?
    ensures i < n && Block(ms, i, env).Err? && RenderPrefix(ms, n, env).error == Block(ms, i, env).error
  {
    if RenderPrefix(ms, n - 1, env).Err? {
      i := RenderPrefixErrFrom(ms, n - 1, env);
    } else {
      i := n - 1;
    }
  }

  /**
   * Rendering succeeds exactly when every message has a service and its
   * attachment path can be rerooted; otherwise it raises AttributeError or
   * ValueError.
   */
  lemma ConvHtmlOkIff(ms: seq<Message>, env: Env)
    ensures ConvHtml(ms, env).Ok? <==>
              forall i :: 0 <= i < |ms| ==> ms[i].service.Some? && MessageText(ms[i], env).Ok?
    ensures ConvHtml(ms, env).Err? ==> ConvHtml(ms, env).error in {AttributeError, ValueError}
  {
    RenderPrefixOkIff(ms, |ms|, env);
    forall i | 0 <= i < |ms| ensures Block(ms, i, env).Ok? <==> ms[i].service.Some? && MessageText(ms[i], env).Ok? {
      BlockErr(ms[i], HeaderAt(ms, i), env);
    }
    if ConvHtml(ms, env).Err? {
      var i := RenderPrefixErrFrom(ms, |ms|, env);
      BlockErr(ms[i], HeaderAt(ms, i), env);
    }
  }

  /** Later messages never change how earlier ones are rendered. */
  lemma {:induction false} RenderPrefixAppend(xs: seq<Message>, ys: seq<Message>, n: nat, env: Env)
    requires n <= |xs|
    ensures RenderPrefix(xs + ys, n, env) == RenderPrefix(xs, n, env)
  {
    if n > 0 {
      RenderPrefixAppend(xs, ys, n - 1, env);
      var zs := xs + ys;
      assert zs[n - 1] == xs[n - 1];
      assert n >= 2 ==> zs[n - 2] == xs[n - 2];
      assert HeaderAt(zs, n - 1) == HeaderAt(xs, n - 1);
    }
  }

  /** Appending one message appends its block: the page is built message by message, in order. */
  lemma ConvHtmlSnoc(ms: seq<Message>, m: Message, env: Env)
    requires ConvHtml(ms, env).Ok? && Block(ms + [m], |ms|, env).Ok?
    ensures ConvHtml(ms + [m], env) == Ok(ConvHtml(ms, env).value + Block(ms + [m], |ms|, env).value)
  {
    RenderPrefixAppend(ms, [m], |ms|, env);
  }

  /** A single message opens with the header of its day, followed by its bubble. */
  lemma ConvHtmlSingle(m: Message, env: Env)
    requires m.service.Some? && MessageText(m, env).Ok?
    ensures ConvHtml([m], env)
         == Ok(DateHeader(env.dayLabel(m.Day())) + Bubble(Lower(m.service.value), m.fromMe, MessageText(m, env).value))
  {
    assert [m][0] == m;
    BlockOk(m, true, env);
    assert RenderPrefix([m], 0, env) == Ok("");
    assert "" + (DateHeader(env.dayLabel(m.Day())) + Bubble(Lower(m.service.value), m.fromMe, MessageText(m, env).value))
        == DateHeader(env.dayLabel(m.Day())) + Bubble(Lower(m.service.value), m.fromMe, MessageText(m, env).value);
  }

  /**
   * The bubble class does not depend on the case in which the service is
   * spelled: services equal up to the case of their letters give the same
   * bubble.
   */
  lemma BubbleCaseInsensitive(s1: string, s2: string, fromMe: bool, text: string)
    requires |s1| == |s2|
    requires forall i :: 0 <= i < |s1| ==> LowerChar(s1[i]) == LowerChar(s2[i])
    ensures Bubble(Lower(s1), fromMe, text) == Bubble(Lower(s2), fromMe, text)
  {
    assert forall i :: 0 <= i < |s1| ==> Lower(s1)[i] == LowerChar(s1[i]);
    assert Lower(s1) == Lower(s2);
  }

  /**
   * Every message sits under the header of its own day: going back from it
   * one reaches a header with no change of day on the way.
   */
  function GroupStart(ms: seq<Message>, i: nat): (j: nat)
    requires i < |ms|
    ensures j <= i && HeaderAt(ms, j)
    ensures forall k :: j <= k <= i ==> ms[k].Day() == ms[i].Day()
  {
    if HeaderAt(ms, i) then i else GroupStart(ms, i - 1)
  }

  /** How many of the first `n` messages get a date header. */
  function HeadersBefore(ms: seq<Message>, n: nat): nat
    requires n <= |ms|
  {
    if n == 0 then 0 else HeadersBefore(ms, n - 1) + (if HeaderAt(ms, n - 1) then 1 else 0)
  }

  /** The UTC days of the first `n` messages. */
  function DaysBefore(ms: seq<Message>, n: nat): (days: set<int>)
    requires n <= |ms|
    ensures forall i :: 0 <= i < n ==> ms[i].Day() in days
  {
    if n == 0 then {} else DaysBefore(ms, n - 1) + {ms[n - 1].Day()}
  }

  predicate Chronological(ms: seq<Message>) {
    forall i, j :: 0 <= i <= j < |ms| ==> ms[i].dateRaw <= ms[j].dateRaw
  }

  lemma {:induction false} DaysBeforeBounded(ms: seq<Message>, n: nat)
    requires 0 < n <= |ms| && Chronological(ms)
    ensures forall d :: d in DaysBefore(ms, n) ==> d <= ms[n - 1].Day()
  {
    if n > 1 {
      DaysBeforeBounded(ms, n - 1);
      TimeCodec.UtcDayMonotone(ms[n - 2].dateRaw, ms[n - 1].dateRaw);
    }
  }

  /** With the messages in date order, there is exactly one header per distinct day. */
  lemma {:induction false} HeadersPerDay(ms: seq<Message>, n: nat)
    requires n <= |ms| && Chronological(ms)
    ensures HeadersBefore(ms, n) == |DaysBefore(ms, n)|
  {
    if n > 1 {
      HeadersPerDay(ms, n - 1);
      var prev := DaysBefore(ms, n - 1);
      var d := ms[n - 1].Day();
      if HeaderAt(ms, n - 1) {
        DaysBeforeBounded(ms, n - 1);
        TimeCodec.UtcDayMonotone(ms[n - 2].dateRaw, ms[n - 1].dateRaw);
        assert d !in prev;
      } else {
        assert d in prev;
        assert prev + {d} == prev;
      }
    }
  }
}
