/**
 * Where a message attachment is looked for.  The path stored on the phone
 * is rerooted under the attachments directory given with `-a`: everything up
 * to and including the first path segment named `Attachments` is dropped and
 * the remaining segments are joined under that directory with POSIX
 * `os.path.join`.
 */
module Paths {
  import opened Outcome
  import opened Text

  const AttachmentsDir: string := "Attachments"

  /** POSIX `os.path.join(a, b)`: an absolute `b` replaces `a`, otherwise one '/' separates them. */
  function PathJoin(a: string, b: string): (r: string)
    ensures StartsWith(b, "/") ==> r == b
    ensures |b| <= |r| <= |a| + 1 + |b| && r[|r| - |b|..] == b
    ensures !StartsWith(b, "/") ==> StartsWith(r, a)
    ensures !StartsWith(b, "/") && |r| > |b| ==> r[|r| - |b| - 1] == '/'
    ensures !StartsWith(b, "/") ==> |r| == |a| + |b| + (if a == "" || a[|a| - 1] == '/' then 0 else 1)
  {
    if StartsWith(b, "/") then b
    else if a == "" || a[|a| - 1] == '/' then a + b
    else a + "/" + b
  }

  /**
   * The rerooting at `smsdb2html.py` lines 161-166: a path in which the text
   * `Attachments` does not occur is kept; otherwise the segments after the
   * first segment equal to `Attachments` are joined under `base`, and a path
   * holding the text only inside a longer segment raises ValueError.
   */
  function Reroot(base: string, path: string): (r: Result<string>)
    ensures !Contains(path, AttachmentsDir) ==> r == Ok(path)
    ensures r.Err? <==> Contains(path, AttachmentsDir) && AttachmentsDir !in Split(path, '/')
    ensures r.Err? ==> r.error == ValueError
  {
    if !Contains(path, AttachmentsDir) then Ok(path)
    else
      var segments := Split(path, '/');
      match FirstIndex(segments, AttachmentsDir)
      case None => Err(ValueError)
      case Some(k) => Ok(PathJoin(base, Join(segments[k + 1..], '/')))
  }

  /** Each part of a join occurs in the joined string. */
  lemma {:induction false} JoinContainsPart(parts: seq<string>, sep: char, k: nat)
    requires k < |parts|
    ensures Contains(Join(parts, sep), parts[k])
  {
    if |parts| == 1 {
      ContainsMiddle("", parts[0], "");
      assert "" + parts[0] + "" == parts[0];
    } else if k == 0 {
      ContainsMiddle("", parts[0], [sep] + Join(parts[1..], sep));
      assert "" + parts[0] + ([sep] + Join(parts[1..], sep)) == Join(parts, sep);
    } else {
      JoinContainsPart(parts[1..], sep, k - 1);
      ContainsExtend(parts[0] + [sep], Join(parts[1..], sep), "", parts[k]);
      assert parts[0] + [sep] + Join(parts[1..], sep) + "" == Join(parts, sep);
    }
  }

  /** A string in which the first character of `pat` never occurs does not contain `pat`. */
  lemma NotContainsFirstChar(s: string, pat: string)
    requires |pat| > 0 && pat[0] !in s
    ensures !Contains(s, pat)
  {
    forall i ensures !OccursAt(s, pat, i) {
      if 0 <= i <= |s| - |pat| {
        assert s[i..i + |pat|][0] == s[i];
      }
    }
  }

  /** A string that does not contain `Attachments` has no segment `Attachments`. */
  lemma NoSegmentWithoutText(s: string)
    requires !Contains(s, AttachmentsDir)
    ensures AttachmentsDir !in Split(s, '/')
  {
    var parts := Split(s, '/');
    SplitJoinsBack(s, '/');
    forall k | 0 <= k < |parts| ensures parts[k] != AttachmentsDir {
      JoinContainsPart(parts, '/', k);
    }
  }

  /** `Attachments` is a single path segment. */
  lemma SplitAttachmentsDir()
    ensures Split(AttachmentsDir, '/') == [AttachmentsDir]
  {
    assert '/' !in AttachmentsDir;
    SplitPrefix(AttachmentsDir, "", '/');
    assert AttachmentsDir + "" == AttachmentsDir;
  }

  /** The segments of `prefix/seg/rest` for a single segment `seg`. */
  lemma SegmentsAround(prefix: string, seg: string, rest: string)
    requires Split(seg, '/') == [seg]
    ensures Split(prefix + "/" + seg + "/" + rest, '/') == Split(prefix, '/') + [seg] + Split(rest, '/')
  {
    assert prefix + "/" + seg + "/" + rest == prefix + ['/'] + (seg + ['/'] + rest);
    SplitConcat(prefix, seg + ['/'] + rest, '/');
    SplitConcat(seg, rest, '/');
    assert Split(prefix, '/') + ([seg] + Split(rest, '/')) == Split(prefix, '/') + [seg] + Split(rest, '/');
  }

  lemma FirstIndexAfter<T>(front: seq<T>, x: T, tail: seq<T>)
    requires x !in front
    ensures FirstIndex(front + [x] + tail, x) == Some(|front|)
  {
    var xs := front + [x] + tail;
    var r := FirstIndex(xs, x);
    assert xs[|front|] == x;
    assert xs[..|front|] == front;
    assert forall i :: 0 <= i < |front| ==> xs[i] == front[i];
  }

  lemma ContainsSegment(prefix: string, seg: string, rest: string)
    ensures Contains(prefix + "/" + seg + "/" + rest, seg)
  {
    ContainsMiddle(prefix + "/", seg, "/" + rest);
    assert prefix + "/" + seg + "/" + rest == (prefix + "/") + seg + ("/" + rest);
  }

  /** A path whose segments are `front`, then `Attachments`, then `tail`, with no `Attachments` in `front`. */
  lemma RerootSegments(base: string, path: string, front: seq<string>, tail: seq<string>)
    requires Contains(path, AttachmentsDir)
    requires Split(path, '/') == front + [AttachmentsDir] + tail
    requires AttachmentsDir !in front
    ensures Reroot(base, path) == Ok(PathJoin(base, Join(tail, '/')))
  {
    FirstIndexAfter(front, AttachmentsDir, tail);
    assert (front + [AttachmentsDir] + tail)[|front| + 1..] == tail;
  }

  /**
   * Rerooting drops everything up to and including the first segment
   * `Attachments` and joins what follows it under `base`.
   */
  lemma RerootUnderBase(base: string, prefix: string, rest: string)
    requires AttachmentsDir !in Split(prefix, '/')
    ensures Reroot(base, prefix + "/" + AttachmentsDir + "/" + rest) == Ok(PathJoin(base, rest))
  {
    var path := prefix + "/" + AttachmentsDir + "/" + rest;
    ContainsSegment(prefix, AttachmentsDir, rest);
    SplitAttachmentsDir();
    SegmentsAround(prefix, AttachmentsDir, rest);
    RerootSegments(base, path, Split(prefix, '/'), Split(rest, '/'));
    SplitJoinsBack(rest, '/');
  }

  /** The strings of an example path, assembled from their parts. */
  lemma ExampleStrings()
    ensures "/private/var/mobile/Library/SMS" + "/" + AttachmentsDir + "/" + "ab/cd/f.jpg"
         == "/private/var/mobile/Library/SMS/Attachments/ab/cd/f.jpg"
    ensures PathJoin("/export/Attachments", "ab/cd/f.jpg") == "/export/Attachments/ab/cd/f.jpg"
    ensures 'A' !in "/private/var/mobile/Library/SMS"
  {
    assert "ab/cd/f.jpg"[0] != '/';
    assert "/export/Attachments"[18] == 's';
    assert "/export/Attachments" + "/" + "ab/cd/f.jpg" == "/export/Attachments/ab/cd/f.jpg";
  }

  /**
   * An example path: a phone path under `.../SMS/Attachments/` moved
   * under `/export/Attachments`.
   */
  lemma RerootExample()
    ensures Reroot("/export/Attachments", "/private/var/mobile/Library/SMS/Attachments/ab/cd/f.jpg")
         == Ok("/export/Attachments/ab/cd/f.jpg")
  {
    var prefix := "/private/var/mobile/Library/SMS";
    ExampleStrings();
    NotContainsFirstChar(prefix, AttachmentsDir);
    NoSegmentWithoutText(prefix);
    RerootUnderBase("/export/Attachments", prefix, "ab/cd/f.jpg");
  }

  /** `Attachments` inside a longer segment, as in `MyAttachments/x`, raises ValueError. */
  lemma RerootSubstringOnly()
    ensures Reroot("/export/Attachments", "MyAttachments/x") == Err(ValueError)
  {
    var parts := ["MyAttachments", "x"];
    SplitJoin(parts, '/');
    assert Join(parts, '/') == "MyAttachments/x";
    ContainsMiddle("My", AttachmentsDir, "/x");
    assert "My" + AttachmentsDir + "/x" == "MyAttachments/x";
  }
}
