# Diff normaliser of the GitLab code-review helpers

This project models the diff-normalisation core of `langchain_motex/utils/gitlab_utils.py` in Dafny and proves properties of that model. The core takes a merge request's commits and chooses the commit range to compare. For each per-file diff of that comparison it:

- prepends a synthetic `--- a/<old_path>` / `+++ b/<new_path>` header to the body;
- parses the result with a unified-diff parser;
- picks one of five status strings from the parser's file-level flags;
- stores the parser's added and removed line counts;
- labels the file's content type from its new path.

The resulting flat records are turned into one document per changed file. Each document's metadata is the merge-request dictionary merged with the record, without `diff_content`. The rebuilt diff becomes the page content.

Files:

- `wrappers.dfy`: `Option` and `Result`. A `Result` stands for a Python call that returns a value or raises.
- `mime_types.dfy` (module `MimeTypes`): `get_mime_type` and the registry lookup it relies on.
- `gitlab_utils.dfy` (module `GitlabUtils`): the records, the classification, the commit-range choice, the per-diff loop of `get_merge_request_diffs_list` and the document loop of `get_mr_doc`.

The GitLab API, the unified-diff parser and the system MIME table are parameters:

- a `seq` of commit ids, first the one `next()` yields;
- `Compare`, a function from (oldest, latest) to the comparison's `diffs` list;
- `Parser`, a function from text to a list of per-file flag-and-count records, or a parse error;
- `system`, a map from extension to MIME type.

The three loops of the source are methods with `while`/`for` loops: the commit loop (`SelectCommitRange`), the diff loop (`ChangedFiles`) and the document loop (`MrDocuments`). The first is proved against its postcondition directly; the other two are proved against a specification function, `Normalize` for the diff loop and `FileDocument` for the document loop. The lemmas state what those functions promise.

Three behaviours of the code are easy to miss:

- **`.gitignore`.** The registration at `gitlab_utils.py:144` never applies to a file named `.gitignore`. The code looks up the extension that `posixpath.splitext` finds, and that rule gives such a name no extension. So the `.gitignore` override applies to names such as `global.gitignore` (`GitignoreSuffixLabel`) and not to a file named `.gitignore`. That file is looked up like `README` (`NoExtensionLabels`).
- **Side effects.** The normaliser is not a pure function of its argument. Every call adds four MIME types to the process-wide registry, and its result depends on the system's default table. The model uses one fixed registry, `Registry(system)`.
- **Errors.** Four errors escape the normaliser, not only the parse error: an empty commit list (`next()`), a single commit (the oldest sha is never bound), an error raised by the parser, and a patch set with no file (`[0]`). In every case no partial list is returned.

## Model

| member | source | states |
|---|---|---|
| `MimeTypes.Registry` | langchain_motex/utils/gitlab_utils.py:141-144 | the four registrations override the system table's entries for their extensions; every other system entry is kept |
| `MimeTypes.Extension` | langchain_motex/utils/gitlab_utils.py:145 | the extension looked up is a suffix of the path: empty, or a dot followed by no further dot or slash |
| `MimeTypes.ExtensionOf` | langchain_motex/utils/gitlab_utils.py:145 | a path whose last component has a stem (any character other than a dot, so `v1.` counts) followed by `.<name>` is looked up under `.<name>` |
| `MimeTypes.DotFileHasNoExtension` | langchain_motex/utils/gitlab_utils.py:145 | a last component made of one dot and a name (such as `.gitignore`) has no extension |
| `MimeTypes.GuessType` | langchain_motex/utils/gitlab_utils.py:145 | the exact extension wins; otherwise the type registered for its lower-case form is found; nothing is found exactly when neither is registered |
| `MimeTypes.StripCategory` | langchain_motex/utils/gitlab_utils.py:146 | the substitution of `^[a-z]+/` never lengthens the type; what it removes is stated by `StripCategoryMatchesPattern` |
| `MimeTypes.StripCategoryMatchesPattern` | langchain_motex/utils/gitlab_utils.py:146 | `^[a-z]+/` has at most one match; when it matches exactly the matched prefix is removed, otherwise the string is unchanged |
| `MimeTypes.StripVendor` | langchain_motex/utils/gitlab_utils.py:147 | the string changes exactly when it starts with `x-`, and it never grows; what it becomes is stated by `StripVendorResult` |
| `MimeTypes.StripVendorResult` | langchain_motex/utils/gitlab_utils.py:147 | when the rewrite fires, exactly the leading `x-` is removed and the rest is kept; `x-<s>` becomes `<s>` for every `s` |
| `MimeTypes.PlainToText` | langchain_motex/utils/gitlab_utils.py:148 | the string changes exactly when it starts with `plain`, and it never grows; what it becomes is stated by `PlainToTextResult` |
| `MimeTypes.PlainToTextResult` | langchain_motex/utils/gitlab_utils.py:148 | when the rewrite fires, the leading `plain` becomes `text` and the rest is kept; `plain<s>` becomes `text<s>` for every `s` |
| `MimeTypes.Label` | langchain_motex/utils/gitlab_utils.py:146-148 | the three rewrites in source order never lengthen the type |
| `MimeTypes.LabelOfType` | langchain_motex/utils/gitlab_utils.py:146-148 | for a `category/subtype` type with a lower-case category, the label is the vendor and `plain` rewrites of the subtype alone |
| `MimeTypes.MimeType` | langchain_motex/utils/gitlab_utils.py:139-149 | never null: the empty string when the lookup finds nothing, otherwise no longer than the type found |
| `MimeTypes.PlainTextLabel` | langchain_motex/utils/gitlab_utils.py:146-148 | `text/plain` is labelled `text` |
| `MimeTypes.VendorTextLabel` | langchain_motex/utils/gitlab_utils.py:146-147 | `text/x-<name>` is labelled `<name>` when the name does not start with `plain` |
| `MimeTypes.OverrideDecides` | langchain_motex/utils/gitlab_utils.py:141-145 | a registered extension decides the label of every path with a stem and that extension, for every system table |
| `MimeTypes.TomlLabel` | langchain_motex/utils/gitlab_utils.py:141 | `<stem>.toml` is labelled `toml` |
| `MimeTypes.YmlLabel` | langchain_motex/utils/gitlab_utils.py:142 | `<stem>.yml` is labelled `yaml` |
| `MimeTypes.YamlLabel` | langchain_motex/utils/gitlab_utils.py:143 | `<stem>.yaml` is labelled `yaml` |
| `MimeTypes.GitignoreSuffixLabel` | langchain_motex/utils/gitlab_utils.py:144 | `<stem>.gitignore` is labelled `sh` |
| `MimeTypes.NoExtensionLabels` | langchain_motex/utils/gitlab_utils.py:144-149 | a file named `.gitignore` gets the same label as `README`, not the override; with no empty key in the system table, that label is `""` |
| `GitlabUtils.SelectCommitRange` | langchain_motex/utils/gitlab_utils.py:87-97 | no commits fails at `next()`; one commit leaves the oldest sha unbound; otherwise latest = first commit and oldest = last commit |
| `GitlabUtils.DiffContent` | langchain_motex/utils/gitlab_utils.py:103-105 | the rebuilt diff starts with `--- a/`, ends with the untouched body, and is 14 characters longer than the two paths and the body together |
| `GitlabUtils.HeaderRoundTrip` | langchain_motex/utils/gitlab_utils.py:103-105 | when neither path holds a line break, old path, new path and body are read back from the rebuilt diff |
| `GitlabUtils.Classify` | langchain_motex/utils/gitlab_utils.py:111-121 | the status is one of `add`, `delete`, `rename`, `modify`, `unknown`, and it is `unknown` exactly when no flag is set |
| `GitlabUtils.FirstMatch` | langchain_motex/utils/gitlab_utils.py:111-121 | reference rule: the status of the first rule whose flag holds, or the fallback when none holds |
| `GitlabUtils.ClassifyIsFirstMatch` | langchain_motex/utils/gitlab_utils.py:111-121 | classification is first-match priority: added file, removed file, rename, modified file, then `unknown` |
| `GitlabUtils.StatusMeaning` | langchain_motex/utils/gitlab_utils.py:111-121 | each status is chosen exactly when its flag holds and no higher-priority flag does |
| `GitlabUtils.ChangeOf` | langchain_motex/utils/gitlab_utils.py:101-134 | one loop iteration succeeds exactly when the parser accepts the rebuilt diff and reports at least one file; its record has the new path and one of the five statuses |
| `GitlabUtils.ChangeOfRecord` | langchain_motex/utils/gitlab_utils.py:101-134 | a parse error or an empty patch set is that entry's error. Otherwise the record holds: the new path; the diff that was parsed; the new path's label; the first file's status and added/removed counts |
| `GitlabUtils.CollectConcat` | langchain_motex/utils/gitlab_utils.py:100-136 | a loop whose body may raise, run over two parts in turn: the first error wins, otherwise the results concatenate |
| `GitlabUtils.CollectEntrywise` | langchain_motex/utils/gitlab_utils.py:100-136 | one result per element in order exactly when no element fails, else the error of the first failing element |
| `GitlabUtils.CollectStep` | langchain_motex/utils/gitlab_utils.py:100-135 | one more iteration appends its result, or its error becomes the error of the whole loop |
| `GitlabUtils.Normalize` | langchain_motex/utils/gitlab_utils.py:100-136 | the whole loop succeeds exactly when every entry's iteration succeeds, and then gives one record per entry |
| `GitlabUtils.NormalizeEntrywise` | langchain_motex/utils/gitlab_utils.py:100-136 | one record per diff entry, in input order, exactly when no entry raises; otherwise the first raising entry's error and no records |
| `GitlabUtils.NormalizeRecords` | langchain_motex/utils/gitlab_utils.py:124-134 | each record has its entry's new path, its rebuilt diff, the new path's label and one of the five statuses |
| `GitlabUtils.ChangedFiles` | langchain_motex/utils/gitlab_utils.py:99-136 | the loop returns exactly `Normalize` of its entries: same count and order, per-entry fields, or the first entry's error |
| `GitlabUtils.GetMergeRequestDiffsList` | langchain_motex/utils/gitlab_utils.py:81-136 | an empty commit list gives `NoCommits`, a single commit `OldestCommitUnbound`; otherwise exactly `Normalize` of the comparison of the last commit with the first |
| `GitlabUtils.AsDict` | langchain_motex/utils/gitlab_utils.py:127-134 | the record dictionary has exactly the six keys of the source |
| `GitlabUtils.FileDocument` | langchain_motex/utils/gitlab_utils.py:53-55 | the page content is the rebuilt diff. The metadata keys are the MR keys and record keys, minus `diff_content`. A record key takes the record's value; any other key takes the MR's value |
| `GitlabUtils.DocumentRoundTrip` | langchain_motex/utils/gitlab_utils.py:53-55 | the record is recovered from its document whatever the merge-request dictionary holds |
| `GitlabUtils.MrDocuments` | langchain_motex/utils/gitlab_utils.py:51-56 | one document per record, in order |
| `GitlabUtils.GetMrDoc` | langchain_motex/utils/gitlab_utils.py:48-57 | an empty commit list gives `NoCommits`, a single commit `OldestCommitUnbound`, a diff-loop error propagates unchanged; otherwise one document per changed file, in order, each its `FileDocument` |

## Left out

- GitLab access is not modelled: `get_gitlab_client`, `get_merge_request_dict`, `projects.get`, `mergerequests.get` and `repository_compare`. They are network I/O with no logic beyond field access. The commit list, the comparison and the merge-request dictionary are parameters.
- A host response that lacks an expected key (`KeyError`) is not modelled. Every `RawDiff` carries the three fields.
- The unified-diff library's own rules are not modelled: when it raises, which files a patch set holds, and when each flag is set. `Parser` is an arbitrary function that reports flags and counts. In particular nothing is claimed about when the rename flag is set, beyond its place in the priority order.
- The system's default MIME table is the parameter `system`. Three parts of `guess_type` are not modelled:
  - the suffix map and encoding map (`.tgz`, `.gz`, …);
  - URL-scheme and `data:` handling;
  - Unicode lower-casing (the model lower-cases ASCII letters only).

  The lookup order, the exact extension first and then its lower-case form, is that of Python 3.8 to 3.12.
- The global registration with `mimetypes.add_type` on every call is modelled as one fixed table, `Registry(system)`. The registrations are the same on every call, so every call sees the same table.
- `get_commit_diffs_list` and `get_merge_request_document` are stubs that return `None`.
- The `__main__` block only prints.
- `get_documents_commit` and `get_document_code_summaries` are imported elsewhere in the repository but are not defined in `gitlab_utils.py`. They are not part of this model.
- The key order of the metadata dictionaries is not modelled: Dafny maps are unordered. The document class is a plain pair of page content and metadata.
- Downstream use of the records is not modelled: review prompts, LLM calls, log files, the LangChain loaders and the retriever.
