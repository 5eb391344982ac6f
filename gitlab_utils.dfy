/**
 * The diff normaliser of the GitLab helpers: it chooses the commit range of
 * a merge request, rebuilds every per-file diff of the comparison as a
 * unified-diff document, classifies it, and turns the resulting records into
 * one document per changed file.
 *
 * The GitLab API and the unified-diff parser are outside this model: the
 * commit ids, the comparison and the parser are parameters.
 */
module GitlabUtils {
  import opened Wrappers
  import MimeTypes

  type CommitId = string

  /** One entry of the comparison's `diffs` list, as the host sends it. */
  datatype RawDiff = RawDiff(oldPath: string, newPath: string, diff: string)

  /** What the unified-diff parser reports about one file of a patch set. */
  datatype PatchedFile = PatchedFile(
    isAddedFile: bool,
    isRemovedFile: bool,
    isRename: bool,
    isModifiedFile: bool,
    added: nat,
    removed: nat)

  /** The unified-diff parser: the patch set's files, or the message of the parse error it raises. */
  type Parser = string -> Result<seq<PatchedFile>, string>

  /** The host's comparison of two commits (oldest, latest): its `diffs` list. */
  type Compare = (CommitId, CommitId) -> seq<RawDiff>

  /** The flat record built for each changed file. */
  datatype ChangedFile = ChangedFile(
    filePath: string,
    diffStatus: string,
    addCount: nat,
    deleteCount: nat,
    diffContent: string,
    fileType: string)

  /** The errors that escape `get_merge_request_diffs_list`. */
  datatype Error =
    | NoCommits               // `next()` on an empty commit list
    | OldestCommitUnbound     // a single commit: the loop never binds the oldest sha
    | MalformedDiff(message: string)  // the parser rejects the rebuilt diff
    | EmptyPatchSet(content: string)  // the patch set has no file, so `[0]` fails

  datatype CommitRange = CommitRange(oldest: CommitId, latest: CommitId)

  // ------------------------------------------------------------------
  // Rebuilding a diff
  // ------------------------------------------------------------------

  /** The diff body with the synthetic two-line file header in front of it. */
  function DiffContent(raw: RawDiff): (content: string)
    ensures |content| == |raw.oldPath| + |raw.newPath| + |raw.diff| + 14
    ensures content[..6] == "--- a/" && content[|content| - |raw.diff|..] == raw.diff
  {
    "--- a/" + raw.oldPath + "\n+++ b/" + raw.newPath + "\n" + raw.diff
  }

  /** The index of the first occurrence of `c` in `s`, or -1. */
  function IndexOf(s: string, c: char): (r: int)
    ensures -1 <= r < |s|
    ensures r >= 0 ==> s[r] == c
    ensures forall j :: 0 <= j < |s| && (r < 0 || j < r) ==> s[j] != c
  {
    if |s| == 0 then -1
    else if s[0] == c then 0
    else var r := IndexOf(s[1..], c); if r < 0 then -1 else r + 1
  }

  /**
   * Reads a rebuilt diff back: the path after `--- a/` up to the first line
   * break, the path after `+++ b/` up to the next one, and the rest as the body.
   */
  function SplitHeader(content: string): Option<RawDiff> {
    if |content| < 6 || content[..6] != "--- a/" then None
    else
      var rest := content[6..];
      var i := IndexOf(rest, '\n');
      if i < 0 then None
      else
        var oldPath, next := rest[..i], rest[i + 1..];
        if |next| < 6 || next[..6] != "+++ b/" then None
        else
          var tail := next[6..];
          var j := IndexOf(tail, '\n');
          if j < 0 then None
          else Some(RawDiff(oldPath, tail[..j], tail[j + 1..]))
  }

  lemma IndexOfFirst(a: string, c: char, b: string)
    requires c !in a
    ensures IndexOf(a + [c] + b, c) == |a|
  {
    var s := a + [c] + b;
    assert s[|a|] == c;
    forall j | 0 <= j < |a| ensures s[j] != c {
      assert s[j] == a[j];
    }
  }

  /**
   * The header is well formed: when neither path holds a line break, the
   * old path, the new path and the untouched body can be read back from
   * the rebuilt diff.
   */
  lemma {:induction false} HeaderRoundTrip(raw: RawDiff)
    requires '\n' !in raw.oldPath && '\n' !in raw.newPath
    ensures SplitHeader(DiffContent(raw)) == Some(raw)
  {
    var content := DiffContent(raw);
    var rest := content[6..];
    var next := "+++ b/" + raw.newPath + "\n" + raw.diff;
    assert rest == raw.oldPath + ['\n'] + next;
    IndexOfFirst(raw.oldPath, '\n', next);
    assert rest[..|raw.oldPath|] == raw.oldPath;
    assert rest[|raw.oldPath| + 1..] == next;
    var tail := next[6..];
    assert tail == raw.newPath + ['\n'] + raw.diff;
    IndexOfFirst(raw.newPath, '\n', raw.diff);
    assert tail[..|raw.newPath|] == raw.newPath;
    assert tail[|raw.newPath| + 1..] == raw.diff;
  }

  // ------------------------------------------------------------------
  // Classifying a file
  // ------------------------------------------------------------------

  const StatusLabels: set<string> := {"add", "delete", "rename", "modify", "unknown"}

  /** The status chosen from the parser's file-level flags, first match first. */
  function Classify(p: PatchedFile): (status: string)
    ensures status in StatusLabels
    ensures status == "unknown" <==>
              !p.isAddedFile && !p.isRemovedFile && !p.isRename && !p.isModifiedFile
  {
    if p.isAddedFile then "add"
    else if p.isRemovedFile then "delete"
    else if p.isRename then "rename"
    else if p.isModifiedFile then "modify"
    else "unknown"
  }

  /** A flag and the status it selects. */
  datatype Rule = Rule(holds: bool, status: string)

  /** The status of the first rule that holds, or the fallback when none does. */
  function FirstMatch(rules: seq<Rule>, fallback: string): (chosen: string)
    ensures (forall i :: 0 <= i < |rules| ==> !rules[i].holds) ==> chosen == fallback
    ensures forall i :: 0 <= i < |rules| && rules[i].holds && (forall j :: 0 <= j < i ==> !rules[j].holds)
              ==> chosen == rules[i].status
  {
    if |rules| == 0 then fallback
    else if rules[0].holds then rules[0].status
    else FirstMatch(rules[1..], fallback)
  }

  /** The classification rules in their priority order. */
  function StatusRules(p: PatchedFile): seq<Rule> {
    [Rule(p.isAddedFile, "add"),
     Rule(p.isRemovedFile, "delete"),
     Rule(p.isRename, "rename"),
     Rule(p.isModifiedFile, "modify")]
  }

  /**
   * Classification is first-match priority over added file, removed file,
   * rename and modified file, with `unknown` as the fallback.
   */
  lemma ClassifyIsFirstMatch(p: PatchedFile)
    ensures Classify(p) == FirstMatch(StatusRules(p), "unknown")
  {
    var rules := StatusRules(p);
    if p.isAddedFile {
      assert rules[0].holds;
    } else if p.isRemovedFile {
      assert !rules[0].holds && rules[1].holds;
    } else if p.isRename {
      assert !rules[0].holds && !rules[1].holds && rules[2].holds;
    } else if p.isModifiedFile {
      assert !rules[0].holds && !rules[1].holds && !rules[2].holds && rules[3].holds;
    } else {
      assert forall i :: 0 <= i < |rules| ==> !rules[i].holds;
    }
  }

  /**
   * What each status tells about the flags: a status is chosen exactly when
   * its flag holds and no flag of higher priority does.
   */
  lemma StatusMeaning(p: PatchedFile)
    ensures Classify(p) == "add" <==> p.isAddedFile
    ensures Classify(p) == "delete" <==> !p.isAddedFile && p.isRemovedFile
    ensures Classify(p) == "rename" <==> !p.isAddedFile && !p.isRemovedFile && p.isRename
    ensures Classify(p) == "modify" <==>
              !p.isAddedFile && !p.isRemovedFile && !p.isRename && p.isModifiedFile
  {
    ClassifyIsFirstMatch(p);
  }

  // ------------------------------------------------------------------
  // The record of one changed file
  // ------------------------------------------------------------------

  /**
   * The record for one entry of the comparison, or the error the entry
   * raises. The rebuilt diff is both what the parser reads and what is
   * stored; the path and the label come from the new path alone.
   */
  function ChangeOf(parse: Parser, system: MimeTypes.Table, raw: RawDiff): (r: Result<ChangedFile, Error>)
    ensures r.Success? <==> parse(DiffContent(raw)).Success? && |parse(DiffContent(raw)).value| > 0
    ensures r.Success? ==> r.value.filePath == raw.newPath && r.value.diffStatus in StatusLabels
  {
    var content := DiffContent(raw);
    match parse(content)
    case Failure(message) => Failure(MalformedDiff(message))
    case Success(files) =>
      if |files| == 0 then Failure(EmptyPatchSet(content))
      else
        var patch := files[0];
        Success(ChangedFile(raw.newPath, Classify(patch), patch.added, patch.removed,
                            content, MimeTypes.MimeType(system, raw.newPath)))
  }

  /**
   * The record of an entry: the rebuilt diff is both what the parser reads
   * and what is stored, the first file of the patch set gives the status and
   * the counts, and the path and the label come from the new path alone.
   */
  lemma ChangeOfRecord(parse: Parser, system: MimeTypes.Table, raw: RawDiff)
    ensures parse(DiffContent(raw)).Failure? ==>
              ChangeOf(parse, system, raw) == Failure(MalformedDiff(parse(DiffContent(raw)).error))
    ensures parse(DiffContent(raw)) == Success([]) ==>
              ChangeOf(parse, system, raw) == Failure(EmptyPatchSet(DiffContent(raw)))
    ensures ChangeOf(parse, system, raw).Success? <==>
              parse(DiffContent(raw)).Success? && |parse(DiffContent(raw)).value| > 0
    ensures ChangeOf(parse, system, raw).Success? ==>
              var c, patch := ChangeOf(parse, system, raw).value, parse(DiffContent(raw)).value[0];
              && c.filePath == raw.newPath
              && c.diffContent == DiffContent(raw)
              && c.fileType == MimeTypes.MimeType(system, raw.newPath)
              && c.diffStatus == Classify(patch)
              && c.diffStatus in StatusLabels
              && c.addCount == patch.added
              && c.deleteCount == patch.removed
  {
  }

  /**
   * Applies `f` to every element in order: all the results, or the error of
   * the first element that fails (a Python loop whose body may raise).
   */
  function Collect<X, Y, E>(f: X -> Result<Y, E>, xs: seq<X>): Result<seq<Y>, E>
    decreases |xs|
  {
    if xs == [] then Success([])
    else
      match f(xs[0])
      case Failure(e) => Failure(e)
      case Success(y) =>
        match Collect(f, xs[1..])
        case Failure(e) => Failure(e)
        case Success(ys) => Success([y] + ys)
  }

  /** Running the loop over two parts in turn: the first error wins, otherwise the results concatenate. */
  function Combine<Y, E>(a: Result<seq<Y>, E>, b: Result<seq<Y>, E>): Result<seq<Y>, E> {
    if a.Failure? then a
    else if b.Failure? then b
    else Success(a.value + b.value)
  }

  lemma {:induction false} CollectConcat<X, Y, E>(f: X -> Result<Y, E>, a: seq<X>, b: seq<X>)
    ensures Collect(f, a + b) == Combine(Collect(f, a), Collect(f, b))
    decreases |a|
  {
    if a == [] {
      assert a + b == b;
      if Collect(f, b).Success? {
        assert [] + Collect(f, b).value == Collect(f, b).value;
      }
    } else {
      assert (a + b)[0] == a[0];
      assert (a + b)[1..] == a[1..] + b;
      CollectConcat(f, a[1..], b);
      var ra, rb := Collect(f, a[1..]), Collect(f, b);
      if f(a[0]).Success? && ra.Success? && rb.Success? {
        assert [f(a[0]).value] + (ra.value + rb.value) == ([f(a[0]).value] + ra.value) + rb.value;
      }
    }
  }

  /**
   * One result per element, in order, exactly when no element fails;
   * otherwise the error is that of the first element that fails.
   */
  lemma {:induction false} CollectEntrywise<X, Y, E>(f: X -> Result<Y, E>, xs: seq<X>)
    ensures Collect(f, xs).Success? <==> forall i :: 0 <= i < |xs| ==> f(xs[i]).Success?
    ensures Collect(f, xs).Success? ==>
              |Collect(f, xs).value| == |xs| &&
              forall i :: 0 <= i < |xs| ==> f(xs[i]) == Success(Collect(f, xs).value[i])
    ensures Collect(f, xs).Failure? ==>
              exists i :: 0 <= i < |xs| && f(xs[i]) == Failure(Collect(f, xs).error) &&
                forall j :: 0 <= j < i ==> f(xs[j]).Success?
    decreases |xs|
  {
    if xs != [] {
      var tail := xs[1..];
      CollectEntrywise(f, tail);
      assert forall i :: 1 <= i < |xs| ==> xs[i] == tail[i - 1];
      var r := Collect(f, xs);
      if f(xs[0]).Success? {
        var rt := Collect(f, tail);
        if rt.Failure? {
          var k :| 0 <= k < |tail| && f(tail[k]) == Failure(rt.error) &&
            forall j :: 0 <= j < k ==> f(tail[j]).Success?;
          assert f(xs[k + 1]) == Failure(r.error);
          assert !f(xs[k + 1]).Success?;
        } else {
          assert r.value == [f(xs[0]).value] + rt.value;
        }
      }
    }
  }

  /** `ChangeOf` with the parser and the system MIME table fixed. */
  function Entry(parse: Parser, system: MimeTypes.Table): RawDiff -> Result<ChangedFile, Error> {
    raw => ChangeOf(parse, system, raw)
  }

  /**
   * The records of all entries of a comparison, in order, or the error of
   * the first entry that raises one.
   */
  function Normalize(parse: Parser, system: MimeTypes.Table, diffs: seq<RawDiff>): (r: Result<seq<ChangedFile>, Error>)
    ensures r.Success? <==> forall i :: 0 <= i < |diffs| ==> ChangeOf(parse, system, diffs[i]).Success?
    ensures r.Success? ==> |r.value| == |diffs|
  {
    CollectEntrywise(Entry(parse, system), diffs);
    Collect(Entry(parse, system), diffs)
  }

  /**
   * One record per entry, in input order, exactly when no entry raises;
   * otherwise the error of the first entry that raises, and no records.
   */
  lemma NormalizeEntrywise(parse: Parser, system: MimeTypes.Table, diffs: seq<RawDiff>)
    ensures Normalize(parse, system, diffs).Success? <==>
              forall i :: 0 <= i < |diffs| ==> ChangeOf(parse, system, diffs[i]).Success?
    ensures Normalize(parse, system, diffs).Success? ==>
              var cs := Normalize(parse, system, diffs).value;
              |cs| == |diffs| &&
              forall i :: 0 <= i < |diffs| ==> ChangeOf(parse, system, diffs[i]) == Success(cs[i])
    ensures Normalize(parse, system, diffs).Failure? ==>
              exists i :: 0 <= i < |diffs| &&
                ChangeOf(parse, system, diffs[i]) == Failure(Normalize(parse, system, diffs).error) &&
                forall j :: 0 <= j < i ==> ChangeOf(parse, system, diffs[j]).Success?
  {
    CollectEntrywise(Entry(parse, system), diffs);
  }

  /** One more element processed: its result is appended, or its error ends the loop. */
  lemma CollectStep<X, Y, E>(f: X -> Result<Y, E>, xs: seq<X>, i: nat, done: seq<Y>)
    requires i < |xs| && Collect(f, xs[..i]) == Success(done)
    ensures f(xs[i]).Success? ==> Collect(f, xs[..i + 1]) == Success(done + [f(xs[i]).value])
    ensures f(xs[i]).Failure? ==> Collect(f, xs) == Failure(f(xs[i]).error)
  {
    assert xs[..i + 1] == xs[..i] + [xs[i]];
    CollectConcat(f, xs[..i], [xs[i]]);
    assert [xs[i]][1..] == [];
    if f(xs[i]).Success? {
      assert [f(xs[i]).value] + [] == [f(xs[i]).value];
      assert Collect(f, [xs[i]]) == Success([f(xs[i]).value]);
    }
    assert xs == xs[..i + 1] + xs[i + 1..];
    CollectConcat(f, xs[..i + 1], xs[i + 1..]);
  }

  /**
   * Every record of a successful run describes its own entry: the new path,
   * the rebuilt diff, the label of the new path and one of the five statuses.
   */
  lemma NormalizeRecords(parse: Parser, system: MimeTypes.Table, diffs: seq<RawDiff>)
    requires Normalize(parse, system, diffs).Success?
    ensures var cs := Normalize(parse, system, diffs).value;
            && |cs| == |diffs|
            && forall i :: 0 <= i < |diffs| ==>
                 && cs[i].filePath == diffs[i].newPath
                 && cs[i].diffContent == DiffContent(diffs[i])
                 && cs[i].fileType == MimeTypes.MimeType(system, diffs[i].newPath)
                 && cs[i].diffStatus in StatusLabels
  {
    NormalizeEntrywise(parse, system, diffs);
    forall i | 0 <= i < |diffs|
      ensures var c := Normalize(parse, system, diffs).value[i];
              && c.filePath == diffs[i].newPath
              && c.diffContent == DiffContent(diffs[i])
              && c.fileType == MimeTypes.MimeType(system, diffs[i].newPath)
              && c.diffStatus in StatusLabels
    {
      ChangeOfRecord(parse, system, diffs[i]);
    }
  }

  // ------------------------------------------------------------------
  // get_merge_request_diffs_list
  // ------------------------------------------------------------------

  /**
   * The range compared: the first commit listed is the latest and the last
   * one iterated is the oldest. An empty list fails on `next()`, and with a
   * single commit the oldest sha is never bound.
   */
  method SelectCommitRange(commits: seq<CommitId>) returns (r: Result<CommitRange, Error>)
    ensures |commits| == 0 ==> r == Failure(NoCommits)
    ensures |commits| == 1 ==> r == Failure(OldestCommitUnbound)
    ensures |commits| >= 2 ==> r == Success(CommitRange(commits[|commits| - 1], commits[0]))
  {
    if |commits| == 0 {
      return Failure(NoCommits);
    }
    var latest := commits[0];
    var oldest: Option<CommitId> := None;
    var i := 1;
    while i < |commits|
      invariant 1 <= i <= |commits|
      invariant oldest == if i == 1 then None else Some(commits[i - 1])
    {
      oldest := Some(commits[i]);
      i := i + 1;
    }
    match oldest
    case None => r := Failure(OldestCommitUnbound);
    case Some(sha) => r := Success(CommitRange(sha, latest));
  }

  /**
   * The loop over the comparison's diffs: one record per entry, in input
   * order, or the first error raised (no partial list).
   */
  method ChangedFiles(diffs: seq<RawDiff>, parse: Parser, system: MimeTypes.Table)
    returns (r: Result<seq<ChangedFile>, Error>)
    ensures r == Normalize(parse, system, diffs)
    ensures r.Success? <==> forall i :: 0 <= i < |diffs| ==> ChangeOf(parse, system, diffs[i]).Success?
    ensures r.Success? ==>
              |r.value| == |diffs| &&
              forall i :: 0 <= i < |diffs| ==>
                && r.value[i].filePath == diffs[i].newPath
                && r.value[i].diffContent == DiffContent(diffs[i])
                && r.value[i].fileType == MimeTypes.MimeType(system, diffs[i].newPath)
                && r.value[i].diffStatus in StatusLabels
    ensures r.Failure? ==>
              exists i :: 0 <= i < |diffs| &&
                ChangeOf(parse, system, diffs[i]) == Failure(r.error) &&
                forall j :: 0 <= j < i ==> ChangeOf(parse, system, diffs[j]).Success?
  {
    var changed: seq<ChangedFile> := [];
    var i := 0;
    while i < |diffs|
      invariant 0 <= i <= |diffs|
      invariant Normalize(parse, system, diffs[..i]) == Success(changed)
    {
      var diff := diffs[i];
      var content := DiffContent(diff);
      var parsed := parse(content);
      CollectStep(Entry(parse, system), diffs, i, changed);
      if parsed.Failure? {
        r := Failure(MalformedDiff(parsed.error));
        NormalizeEntrywise(parse, system, diffs);
        return;
      }
      if |parsed.value| == 0 {
        r := Failure(EmptyPatchSet(content));
        NormalizeEntrywise(parse, system, diffs);
        return;
      }
      var patch := parsed.value[0];
      var status := Classify(patch);
      var fileType := MimeTypes.MimeType(system, diff.newPath);
      var record := ChangedFile(diff.newPath, status, patch.added, patch.removed, content, fileType);
      changed := changed + [record];
      i := i + 1;
    }
    assert diffs[..i] == diffs;
    r := Success(changed);
    NormalizeEntrywise(parse, system, diffs);
    NormalizeRecords(parse, system, diffs);
  }

  /**
   * `get_merge_request_diffs_list`: choose the range from the merge
   * request's commits, compare oldest to latest, and build the records.
   */
  method GetMergeRequestDiffsList(commits: seq<CommitId>, compare: Compare, parse: Parser, system: MimeTypes.Table)
    returns (r: Result<seq<ChangedFile>, Error>)
    ensures |commits| == 0 ==> r == Failure(NoCommits)
    ensures |commits| == 1 ==> r == Failure(OldestCommitUnbound)
    ensures |commits| >= 2 ==>
              r == Normalize(parse, system, compare(commits[|commits| - 1], commits[0]))
  {
    var range :- SelectCommitRange(commits);
    var diffs := compare(range.oldest, range.latest);
    r := ChangedFiles(diffs, parse, system);
  }

  // ------------------------------------------------------------------
  // get_mr_doc
  // ------------------------------------------------------------------

  /** A JSON-like value of a metadata dictionary. */
  datatype Value = Str(s: string) | Int(n: int) | Dict(entries: map<string, Value>)

  type Metadata = map<string, Value>

  /** A LangChain document: its text and its metadata. */
  datatype Document = Document(pageContent: string, metadata: Metadata)

  const RecordKeys: set<string> :=
    {"file_path", "diff_status", "add_count", "delete_count", "diff_content", "file_type"}

  /** The record as the dictionary the source builds. */
  function AsDict(c: ChangedFile): (d: Metadata)
    ensures d.Keys == RecordKeys
  {
    map["file_path" := Str(c.filePath),
        "diff_status" := Str(c.diffStatus),
        "add_count" := Int(c.addCount),
        "delete_count" := Int(c.deleteCount),
        "diff_content" := Str(c.diffContent),
        "file_type" := Str(c.fileType)]
  }

  /**
   * The document of one changed file: the merge request's dictionary merged
   * with the record (the record's keys win) minus `diff_content`, which
   * becomes the page content instead.
   */
  function FileDocument(mergeRequest: Metadata, c: ChangedFile): (doc: Document)
    ensures doc.pageContent == c.diffContent
    ensures doc.metadata.Keys == (mergeRequest.Keys + RecordKeys) - {"diff_content"}
    ensures forall k :: k in doc.metadata && k in RecordKeys ==> doc.metadata[k] == AsDict(c)[k]
    ensures forall k :: k in doc.metadata && k !in RecordKeys ==> doc.metadata[k] == mergeRequest[k]
  {
    Document(c.diffContent, (mergeRequest + AsDict(c)) - {"diff_content"})
  }

  function StrAt(m: Metadata, k: string): Option<string> {
    if k in m && m[k].Str? then Some(m[k].s) else None
  }

  function NatAt(m: Metadata, k: string): Option<nat> {
    if k in m && m[k].Int? && m[k].n >= 0 then Some(m[k].n) else None
  }

  /** Reads a changed-file record back from a document. */
  function FromDocument(doc: Document): Option<ChangedFile> {
    var m := doc.metadata;
    if StrAt(m, "file_path").Some? && StrAt(m, "diff_status").Some? && NatAt(m, "add_count").Some?
       && NatAt(m, "delete_count").Some? && StrAt(m, "file_type").Some?
    then Some(ChangedFile(StrAt(m, "file_path").value, StrAt(m, "diff_status").value,
                          NatAt(m, "add_count").value, NatAt(m, "delete_count").value,
                          doc.pageContent, StrAt(m, "file_type").value))
    else None
  }

  /**
   * Nothing of the record is lost in its document, whatever the merge
   * request's dictionary holds, because the record's keys win the merge.
   */
  lemma DocumentRoundTrip(mergeRequest: Metadata, c: ChangedFile)
    ensures FromDocument(FileDocument(mergeRequest, c)) == Some(c)
  {
    var m := FileDocument(mergeRequest, c).metadata;
    var d := AsDict(c);
    assert "file_path" in m && m["file_path"] == d["file_path"] == Str(c.filePath);
    assert "diff_status" in m && m["diff_status"] == d["diff_status"] == Str(c.diffStatus);
    assert "add_count" in m && m["add_count"] == d["add_count"] == Int(c.addCount);
    assert "delete_count" in m && m["delete_count"] == d["delete_count"] == Int(c.deleteCount);
    assert "file_type" in m && m["file_type"] == d["file_type"] == Str(c.fileType);
  }

  /** The loop of `get_mr_doc`: one document per record, in order. */
  method MrDocuments(mergeRequest: Metadata, changed: seq<ChangedFile>) returns (docs: seq<Document>)
    ensures |docs| == |changed|
    ensures forall i :: 0 <= i < |changed| ==> docs[i] == FileDocument(mergeRequest, changed[i])
  {
    docs := [];
    for i := 0 to |changed|
      invariant |docs| == i
      invariant forall j :: 0 <= j < i ==> docs[j] == FileDocument(mergeRequest, changed[j])
    {
      var diff := changed[i];
      var metadata := (mergeRequest + AsDict(diff)) - {"diff_content"};
      docs := docs + [Document(diff.diffContent, metadata)];
    }
  }

  /**
   * `get_mr_doc`: the documents of the merge request's changed files; an
   * error of the diff list propagates.
   */
  method GetMrDoc(mergeRequest: Metadata, commits: seq<CommitId>, compare: Compare, parse: Parser,
                  system: MimeTypes.Table)
    returns (r: Result<seq<Document>, Error>)
    ensures |commits| == 0 ==> r == Failure(NoCommits)
    ensures |commits| == 1 ==> r == Failure(OldestCommitUnbound)
    ensures |commits| >= 2 ==>
              var n := Normalize(parse, system, compare(commits[|commits| - 1], commits[0]));
              && (n.Failure? ==> r == Failure(n.error))
              && (n.Success? ==>
                    && r.Success? && |r.value| == |n.value|
                    && forall i :: 0 <= i < |n.value| ==> r.value[i] == FileDocument(mergeRequest, n.value[i]))
  {
    var diffs :- GetMergeRequestDiffsList(commits, compare, parse, system);
    var docs := MrDocuments(mergeRequest, diffs);
    r := Success(docs);
  }
}
