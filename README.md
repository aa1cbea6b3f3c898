# ansible-sanity and ansible-unifier, modelled in Dafny

This project models the two scripts of a small Ansible tool set and proves
properties of the model.

**ansible-sanity** reads a playbook. For every role the first play includes,
it compares the variables the playbook passes with the role's declarations.
The declarations come from a walk of the whole role directory:

- every file, whatever its extension, in every directory named `vars` or
  `defaults` at any depth under the role is loaded as YAML, and each of its
  top-level keys is a declaration of that kind (a `README.md` in such a
  directory is loaded as YAML too);
- every `README.md` in any other directory of the role contributes the names
  in its variable table.

The result is seven issue lists per role and their total count.

**ansible-unifier** rewrites every line of every YAML file under a roles
directory:

- a double-quoted value after a `key:` is requoted with single quotes;
- a `: yes` / `: no` that ends the line becomes `: True` / `: False`.

A file is written back, and counted, when one of its lines set the changed flag.

The model is imperative where the scripts are. Each loop is a method whose
`ensures` ties its result to a specification function on the inputs. The
properties are proved about those functions.

| module (file) | models |
|---|---|
| `Wrappers` (wrappers.dfy) | `Option`, `Result` |
| `Text` (text.dfy) | `\s`, `\w`, the line's body before its newline, `str.strip`, `str.split`, `str.lower`, `in` on strings |
| `Lists` (lists.dfy) | list comprehensions and filters, `chain.from_iterable`, flags and counters over a list |
| `OrderedMaps` (ordered_maps.dfy) | insertion-ordered `dict` with string keys; assignment keeps an existing key's place |
| `YamlValues` (yaml_values.dfy) | `type(v)` of loaded values; the Python objects in the `defaults` membership test |
| `Playbook` (playbook.dfy) | building `pbook_vars` from the first play's tasks |
| `Readme` (readme.dfy) | the two README regexes and the first-cell extraction |
| `Collector` (collector.dfy) | building `collected_vars` for one role |
| `Analyzer` (analyzer.dfy) | the seven issue lists of one role |
| `Sanity` (sanity.dfy) | the whole analysis and `issues_count` |
| `QuoteRegex` (quote_regex.dfy) | `re.search` of the quote pattern on one line |
| `Unifier` (unifier.dfy) | the per-line rewrite, `f_changed`, `ymls_changed` |

The model follows the code in these details:

- The code does not reject a role included by several tasks. The last inclusion's `vars` overwrite the earlier ones.
- The code's membership test against `defaults` compares a bare name with `[name, type]` lists, so it never succeeds.
  - The `defaults` issue list is therefore always empty.
  - A variable declared only under `defaults/` is reported as undeclared.
- Nothing checks task hygiene, handles `import_role`, or parses README default values.

Two details of the unifier's code are no-ops, and the model proves so:

- The pre-checks `'yes' in ln.lower()` and `'no' in ln.lower()` never block the substitution.
- The newline appended to the last group is always added, because `(.*)` never takes a newline.

`len(ln_match.groups()) == 6` always holds, and `[str(x) for x in oldline]` has no effect, so neither is modelled.

## Model

| member | source | states |
|---|---|---|
| `OrderedMaps.Put` | ansible-sanity.py:50 | dict assignment: an existing key keeps its position, a new key is appended |
| `OrderedMaps.PutGet` | ansible-sanity.py:50 | after `d[k] = v`, `d[k]` is `v` and every other key keeps its value |
| `OrderedMaps.DictFromKeys` | ansible-sanity.py:49-50 | a dictionary filled by a run of assignments has the assigned keys, without repeats, each where it was first assigned |
| `OrderedMaps.DictFromGetLast` | ansible-sanity.py:49-50 | after a run of assignments a key holds the value of its last assignment |
| `OrderedMaps.PutAllKeys` | ansible-sanity.py:72-73 | assigning one entry per element of a list gives the elements as keys, without repeats, in first-occurrence order |
| `OrderedMaps.PutAllGet` | ansible-sanity.py:72-73 | each such key holds the entry computed from the key itself |
| `Playbook.Load` | ansible-sanity.py:47-51 | the task loop builds `pbook_vars` exactly as `LoadSpec` says, stopping at the first KeyError |
| `Playbook.RoleVarsKeepsError` | ansible-sanity.py:49-50 | once a task has raised, later tasks change nothing |
| `Playbook.LoadOkIff` | ansible-sanity.py:49-50 | loading succeeds iff every task has `vars` and `include_role.name` |
| `Playbook.LoadFailsAtFirst` | ansible-sanity.py:49-50 | the error reported is that of the first task lacking a key; `vars` is looked up before `include_role` and `name` |
| `Playbook.RoleVarsIsDict` | ansible-sanity.py:49-50 | when every task has its keys, `pbook_vars` is the dictionary filled by assigning each task's role its `vars`, in task order |
| `Playbook.LastInclusionWins` | ansible-sanity.py:49-50 | every included role is a key, and a role keeps the `vars` of the last task including it |
| `Playbook.OnlyIncludedRoles` | ansible-sanity.py:49-50 | every key of `pbook_vars` is the role of some task |
| `Playbook.RolesInFirstInclusionOrder` | ansible-sanity.py:49-50 | the keys are the included roles, distinct, in order of first inclusion |
| `Readme.RowMatchIff` | ansible-sanity.py:96 | on a line, the greedy scan accepts exactly the lines the row regex matches |
| `Readme.GreedyIsExact` | ansible-sanity.py:97 | for a prefix pattern whose whitespace runs are followed by non-space literals, the greedy scan accepts exactly the lines the backtracking regex accepts |
| `Readme.HeaderIsRegex` | ansible-sanity.py:97 | the header test is the header regex as a prefix match |
| `Readme.RowName` | ansible-sanity.py:98 | on a matched row, the second piece of splitting at bars exists, and stripped it is the row's non-empty run of word characters |
| `Text.StripPadded` | ansible-sanity.py:98 | `strip()` of a piece of text padded with whitespace on both sides gives back the non-blank piece |
| `Readme.ReadmeNamesAreWords` | ansible-sanity.py:95-98 | every collected name is a non-empty word run taken from a row that matches the row pattern and not the header |
| `Readme.DataRowsCollected` | ansible-sanity.py:95-98 | every such data row has its name collected |
| `Readme.SeparatorRowIgnored` | ansible-sanity.py:96-98 | a line whose first cell holds no word character, such as a separator row of dashes and colons, never contributes a name |
| `Readme.WordInFirstCell` | ansible-sanity.py:96-98 | the first cell of every line the row pattern accepts holds a word character |
| `Collector.Collect` | ansible-sanity.py:74-99 | the loop over a role's files gives `CollectSpec` and warns at exactly the files that did not load to a mapping |
| `Collector.AddKeys` | ansible-sanity.py:87-88 | one `(name, type)` entry per top-level key, appended in key order to the list of the file's directory |
| `Collector.AddRows` | ansible-sanity.py:95-98 | the README's names are appended in line order |
| `Collector.CollectedInFileOrder` | ansible-sanity.py:74-98 | each list is the files' contributions one after another, in file order; repeats across files are kept |
| `Collector.SkippedFileHarmless` | ansible-sanity.py:85-90 | a file that did not load to a mapping is warned about, adds nothing, and the files after it are still read: the collected lists equal those of the same file list without it |
| `Collector.SkipNotMapping` | ansible-sanity.py:85-90 | removing a file that did not load to a mapping from anywhere in the file list leaves the collected lists unchanged |
| `Analyzer.Classify` | ansible-sanity.py:115-141 | the three loops give `Classification` |
| `Analyzer.Missing` | ansible-sanity.py:128-141 | each loop's two lists are the elements of its source missing from each of two targets, in source order |
| `Analyzer.MismatchingDecls` | ansible-sanity.py:124-127 | the inner loop appends the name once per `vars` declaration of it whose type differs |
| `Analyzer.DefaultsNeverMatch` | ansible-sanity.py:118-122 | a name is never in the `defaults` list of `[name, type]` lists: `defaults` is empty and `undeclared` is the playbook vars not among the `vars` names, in playbook order |
| `Analyzer.CategoryMembers` | ansible-sanity.py:115-141 | membership in each name list iff the name is in the list's source and not in its target |
| `Analyzer.ConsistentNameIsClean` | ansible-sanity.py:115-141 | a name passed, declared under `vars/` and documented yields none of the five name issues |
| `Analyzer.MismatchesOfCount` | ansible-sanity.py:124-127 | the inner loop's list has one entry per differing declaration, all equal to the name |
| `Analyzer.MismatchCount` | ansible-sanity.py:116-127 | `type_mismatch` holds a playbook var once per `vars` declaration of it with another type, and never holds a name the playbook does not pass |
| `Lists.NotAmongCount` | ansible-sanity.py:128-141 | a filter keeps every occurrence of an element outside the target, with its repeats, and nothing else |
| `Lists.NotAmongConcat` | ansible-sanity.py:128-141 | the filter distributes over concatenation, so the output keeps source order |
| `Lists.FlattenLength` | ansible-sanity.py:147-157 | `chain.from_iterable` loses nothing: its length is the sum of the lengths |
| `Sanity.Analyze` | ansible-sanity.py:47-157 | the whole run gives `AnalyzeSpec`: the load error, or the issues, the count and the warnings |
| `Sanity.CollectRoles` | ansible-sanity.py:72-99 | the loop over the roles gives `collected_vars` and the warnings role by role |
| `Sanity.ClassifyRoles` | ansible-sanity.py:105-141 | the loop over the roles gives `issues` |
| `Sanity.CollectAllKeys` | ansible-sanity.py:72-73 | `collected_vars` has exactly the walked roles as keys, in their order |
| `Sanity.CollectAllGet` | ansible-sanity.py:72-99 | a role's entry is what collecting its own files gives |
| `Sanity.ReportKeys` | ansible-sanity.py:105-114 | `issues` has exactly the classified roles as keys, in their order |
| `Sanity.ReportGet` | ansible-sanity.py:105-141 | a role's entry is the classification of its own playbook vars against its own declarations |
| `Sanity.IssuesPerRole` | ansible-sanity.py:72-141 | for distinct roles, the issues have exactly those roles as keys, in order, and each role's entry classifies its playbook vars against the collection of its own files |
| `Sanity.LoadedRolesDistinct` | ansible-sanity.py:49-50 | the roles of a loaded playbook are distinct |
| `Sanity.RoleReport` | ansible-sanity.py:105-141 | a successful run reports on exactly the playbook's roles, in playbook order, each classified against its own files |
| `Sanity.WarningsPerRole` | ansible-sanity.py:89-90 | a warning is printed exactly for each file of each role that did not load to a mapping |
| `Sanity.IssueCountIsTotal` | ansible-sanity.py:147-157 | `issues_count` is the number of entries in all seven lists of all roles |
| `Sanity.NoIssuesIff` | ansible-sanity.py:147-157 | the count is zero iff every role's seven lists are empty |
| `QuoteRegex.FindMatch` | ansible-unifier.py:39 | a reported match has a word character and `:` at `p`, `p+1`, quotes at `q` and `r`, and `1 <= p`, `p+3 <= q`, `q+2 <= r` |
| `QuoteRegex.MatchAtSound` | ansible-unifier.py:39 | what the scan finds at `p` is a match of the pattern |
| `QuoteRegex.MatchAtFirst` | ansible-unifier.py:39 | any match with group 1 ending at `p` is found, with the same `\s+` and a closing quote no later |
| `QuoteRegex.FindMatchIsSearch` | ansible-unifier.py:39 | on a line, a match is found iff the pattern matches, and it is the one Python's backtracking reaches first |
| `Unifier.Requote` | ansible-unifier.py:42-50 | the edits of the `oldline` list, including the slice assignment of the last group's characters, then the join, give the requoted line |
| `Unifier.RewriteLine` | ansible-unifier.py:38-61 | one line's quote, yes and no steps give `Rewritten`, and the line sets `f_changed` exactly as `Flagged` says |
| `Unifier.RewriteFile` | ansible-unifier.py:36-62 | `f_newlines` is the rewrite of each line in order, and `f_changed` is raised iff some line set it |
| `Lists.MapAt` | ansible-unifier.py:37-62 | entry `i` of the new line list is the rewrite of line `i` |
| `Unifier.Unify` | ansible-unifier.py:32-68 | each file is rewritten iff its flag is raised, and `ymls_changed` counts the raised flags |
| `Unifier.QuoteStepShape` | ansible-unifier.py:39-50 | on a match, the line up to `q` is kept, the quotes at `q` and `r` become `'`, each `'` between them becomes `"`, the rest of the body is kept, and exactly one newline ends the line |
| `Unifier.QuoteStepChangesIff` | ansible-unifier.py:38-51 | the quote step changes a line iff the pattern matches; a line without `"` is left alone |
| `Unifier.NoKeyNoRequote` | ansible-unifier.py:39 | group 1 cannot be empty: a line with no `:` from its third character on is never requoted |
| `Unifier.OneCharKeyNotRequoted` | ansible-unifier.py:39 | `k: "v"` with its one-character key in column 0 keeps its double quotes |
| `Unifier.DollarSubSpec` | ansible-unifier.py:52-61 | `re.sub(pat + "$", …)` changes a line iff its body ends with `pat`, and then replaces only that ending |
| `Unifier.YesPrecheckRedundant` | ansible-unifier.py:52-54 | the lower-cased `yes` pre-check never blocks the substitution |
| `Unifier.NoPrecheckRedundant` | ansible-unifier.py:57-59 | the lower-cased `no` pre-check never blocks the substitution |
| `Unifier.YesIsCaseSensitive` | ansible-unifier.py:52-54 | a final `: Yes` passes the pre-check and is left as it is |
| `Unifier.NoIsCaseSensitive` | ansible-unifier.py:57-59 | a final `: No` passes the pre-check and is left as it is |
| `Unifier.StepsLengthen` | ansible-unifier.py:52-61 | the yes and no steps leave a line alone or lengthen it by 1 and 3 |
| `Unifier.FlaggedIffChanged` | ansible-unifier.py:33-61 | a line sets `f_changed` iff its rewritten form differs from it |
| `Unifier.FileFlaggedIffChanged` | ansible-unifier.py:33-68 | `f_changed` is raised iff some line is rewritten, and the file's content after the run is its rewritten lines |
| `Unifier.CountFlaggedIsChangedFiles` | ansible-unifier.py:63-68 | `ymls_changed` is the number of files whose content changes; it is at most the number of files, and zero iff no file changes |

## Left out

- Argument parsing and usage handling (ansible-sanity.py:14-27, ansible-unifier.py:11-22) are command-line plumbing.
- Directory walking (ansible-sanity.py:57-82, ansible-unifier.py:25-29) is filesystem access.
  - The sanity model takes each role's files, in walk order, as a map from role name to files. A role without a directory has no files.
  - The unifier model takes the lines of the YAML files found.
  - The "Unexpected element" exception cannot be reached from the files the walk collects, so it is not modelled.
- `yaml.safe_load` is a foreign library; its result is an input.
  - A playbook is a list of plays. Each task has an optional `include_role` mapping with an optional `name`, and an optional `vars` mapping from names to type tags.
  - A vars/defaults file is either a mapping from names to type tags, or a document that makes the loop raise the caught `TypeError`.
  - Not modelled: a playbook that is not a list; a task whose `vars` is present but not a mapping; a vars/defaults file that loads to a list of integers, where indexing may succeed or raise an uncaught `IndexError`.
- Values are seen only through their type tags: the analyzer compares nothing else.
- File reading and writing, and all printing (ansible-sanity.py:160-222, ansible-unifier.py:63-76), are I/O.
  - The count is modelled, not its display.
  - A warning is modelled as the role and the file's position among the role's files, not the printed path.
- `\s`, `\w`, `str.strip` and `str.lower` are restricted to ASCII; Unicode classes are not modelled.
- Lines are what `readlines()` yields: a newline only as the last character.
- QuoteRegex.FindMatchIsSearch: proved only for such lines. On a string with an inner newline, `.` would stop at that newline, and the model does not follow that.
- Readme.RowMatchIff: proved only for lines as `readlines()` yields them, for the same reason.
- Unifier.FlaggedIffChanged: proved only for such lines. `Unifier.FileFlaggedIffChanged` and `Unifier.CountFlaggedIsChangedFiles` inherit this.
- Analyzer.MismatchCount: stated for a `vars` mapping with distinct keys, which every loaded YAML mapping has.
- A YAML syntax error aborts the run and is not modelled. `yaml.safe_load` raises `yaml.YAMLError` on a broken playbook (ansible-sanity.py:48) or on a broken vars/defaults file, where the `try` (ansible-sanity.py:85-89) catches only `TypeError`.
- A `tasks` key present with a null value raises an uncaught `TypeError` (ansible-sanity.py:49) and is not modelled; the model reports only a missing `tasks` key.
- `Collector.YamlDoc.Loaded` does not require its keys to be distinct. PyYAML keeps one entry per key, the last value winning. A document with a repeated key gives repeated declarations in the model, which the analysis handles in the same way as a name declared in two files.
