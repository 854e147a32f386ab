# Slurm cluster-status translator, modelled in Dafny

The repository's Snakemake profile for Slurm ships a cluster-status script
(`snakemake/assembly_R1041/cluster_status.py`). Snakemake calls it with a job
id. The script runs `sacct -j <jobid> --format=State`, takes the third line of
the output, strips surrounding whitespace and then surrounding `+` characters,
and looks the result up in a fixed table of 14 Slurm job states. It prints
`running`, `success` or `failed`. An output with fewer than two line breaks
raises `IndexError`, and a state missing from the table raises `KeyError`.
A listing of only the two header lines still ends in a line break, so its
third line is empty, and the empty state is in the table as a success: a
job that `sacct` does not list is reported as `success` (see
`HeaderOnlySucceeds`).

This project models that translation as a total pure function from the
decoded `sacct` output to `Result<Outcome, Error>`:

- `wrappers.dfy`: module `Wrappers`, the `Result` datatype.
- `pystr.dfy`: module `PyStr`, the Python `str` operations the script uses:
  `Split` (`str.split(sep)`, empty fields kept), its inverse `Join`, `Strip`
  (`str.strip(chars)` over a character set), `StripWs` (`str.strip()`) and
  `StripChar` (`str.strip(c)`). `Whitespace` is the full set of characters
  for which Python's `str.isspace()` holds, not only ASCII.
- `cluster_status.dfy`: module `ClusterStatus`.
  - `Outcome` has three values, and `Outcome.Word` is the word the script prints.
  - `Error` has two cases. `TooFewLines` models the `IndexError`. `UnknownState` models the `KeyError` and carries the normalised state.
  - `StateTable` is the table.
  - `Normalise` is the two strips.
  - `Classify` translates one line.
  - `Translate` translates the whole output.

Slurm marks a truncated state name with a trailing `+`, but `strip('+')`
removes `+` from both ends. The model follows the code (see
`LeadingMarkStripped`).

## Model

| member | source | states |
|---|---|---|
| `PyStr.Split` | snakemake/assembly_R1041/cluster_status.py:9 | `split('\n')` always yields exactly one field more than there are line breaks |
| `PyStr.SplitFieldsFree` | snakemake/assembly_R1041/cluster_status.py:9 | no field produced by the split contains the separator |
| `PyStr.JoinSplit` | snakemake/assembly_R1041/cluster_status.py:9 | joining the fields with the separator gives back the original text, so nothing is lost by splitting |
| `PyStr.SplitJoin` | snakemake/assembly_R1041/cluster_status.py:9 | splitting the join of separator-free fields gives back exactly those fields (at least one) |
| `PyStr.SplitField` | snakemake/assembly_R1041/cluster_status.py:9 | a separator-free field followed by a separator becomes its own first field |
| `PyStr.SplitNone` | snakemake/assembly_R1041/cluster_status.py:9 | a text without separators splits into the single field itself |
| `PyStr.SplitKeepsEmpty` | snakemake/assembly_R1041/cluster_status.py:9 | empty fields are kept: `"a\n"` splits into `["a", ""]` |
| `PyStr.Strip` | snakemake/assembly_R1041/cluster_status.py:9 | `str.strip(chars)`: the result is no longer than the input and neither starts nor ends with a stripped character; `StripSpec` and `StripExact` pin it down completely |
| `PyStr.StripWs` | snakemake/assembly_R1041/cluster_status.py:9 | `str.strip()`: the result neither starts nor ends with a character for which `str.isspace()` holds |
| `PyStr.StripChar` | snakemake/assembly_R1041/cluster_status.py:9 | `str.strip('+')`: the result neither starts nor ends with the given character |
| `PyStr.WhitespaceChars` | snakemake/assembly_R1041/cluster_status.py:9 | `Whitespace`, what `str.strip()` removes: among ASCII exactly tab to carriage return, `\x1c` to `\x1f` and space; beyond ASCII also the no-break and ideographic spaces, but not the zero-width space |
| `PyStr.LeadLen` | snakemake/assembly_R1041/cluster_status.py:9 | the leading run that strip removes is all stripped characters and stops at the first other character |
| `PyStr.TrailLen` | snakemake/assembly_R1041/cluster_status.py:9 | the same for the trailing run |
| `PyStr.StripSpec` | snakemake/assembly_R1041/cluster_status.py:9 | strip keeps a contiguous infix just after the leading run, removes only stripped characters after it, and the result neither starts nor ends with one |
| `PyStr.StripExact` | snakemake/assembly_R1041/cluster_status.py:9 | strip of a run of stripped characters, a core not starting or ending with one, and another run, is exactly the core |
| `PyStr.StripIdempotent` | snakemake/assembly_R1041/cluster_status.py:9 | stripping twice with the same characters is the same as once |
| `PyStr.StripNested` | snakemake/assembly_R1041/cluster_status.py:9 | `strip()` then `strip('+')` peels outer whitespace runs, then inner `+` runs, down to the core |
| `PyStr.StripShielded` | snakemake/assembly_R1041/cluster_status.py:9 | whitespace that sits inside a trailing `+` run survives both strips |
| `PyStr.StripShieldedLeft` | snakemake/assembly_R1041/cluster_status.py:9 | whitespace that sits inside a leading `+` run survives both strips |
| `ClusterStatus.Outcome.Word` | snakemake/assembly_R1041/cluster_status.py:11-26 | the printed word is one of `running`, `success` and `failed`; `ThreeWords` shows the three statuses print distinct words |
| `ClusterStatus.StateTable` | snakemake/assembly_R1041/cluster_status.py:11-24 | the empty state is a key and maps to success; `TableKeys` and `TableValues` give the whole table |
| `ClusterStatus.TableKeys` | snakemake/assembly_R1041/cluster_status.py:11-24 | the table's keys are exactly the 14 states: five running, `COMPLETED` and `""`, and seven failed |
| `ClusterStatus.TableValues` | snakemake/assembly_R1041/cluster_status.py:11-24 | PENDING, RUNNING, SUSPENDED, COMPLETING and CONFIGURING map to running, COMPLETED and `""` to success, and CANCELLED, FAILED, TIMEOUT, PREEMPTED, NODE_FAIL, REVOKED and SPECIAL_EXIT to failed |
| `ClusterStatus.KeysPlain` | snakemake/assembly_R1041/cluster_status.py:11-24 | no table key starts or ends with whitespace or `+`, so every key survives normalisation unchanged |
| `ClusterStatus.Normalise` | snakemake/assembly_R1041/cluster_status.py:9 | `.strip().strip('+')`: the state is no longer than the line and neither starts nor ends with `+`; `NormaliseWrapped` gives the state for every wrapped line |
| `ClusterStatus.Classify` | snakemake/assembly_R1041/cluster_status.py:9-26 | a line gets a status exactly when its normalised state is a key, and otherwise fails with `UnknownState` carrying that state, as the `KeyError` does; `ClassifyGroups` says which status |
| `ClusterStatus.ClassifyGroups` | snakemake/assembly_R1041/cluster_status.py:9-26 | a line is running, success or failed exactly when its normalised state is in that group, and otherwise it is `UnknownState` carrying the normalised state (both directions) |
| `ClusterStatus.Translate` | snakemake/assembly_R1041/cluster_status.py:9 | the index error happens exactly when the output has fewer than two line breaks, and it records the number of fields |
| `ClusterStatus.ThirdLineDecides` | snakemake/assembly_R1041/cluster_status.py:9 | for any three or more newline-free lines joined by `\n`, the result is that of the third line alone |
| `ClusterStatus.LastStateLineDecides` | snakemake/assembly_R1041/cluster_status.py:9 | with two header lines and the state as the last line, the headers do not affect the result |
| `ClusterStatus.OnlyStateLineMatters` | snakemake/assembly_R1041/cluster_status.py:9 | with two header lines, a state line and anything after its line break, only the state line matters |
| `ClusterStatus.SameStateLineSameOutcome` | snakemake/assembly_R1041/cluster_status.py:9 | two outputs with at least three lines and equal third lines translate identically |
| `ClusterStatus.NormaliseWrapped` | snakemake/assembly_R1041/cluster_status.py:9 | whitespace runs outside `+` runs around a plain core are all removed, leaving the core |
| `ClusterStatus.NormalisePlain` | snakemake/assembly_R1041/cluster_status.py:9 | a text not starting or ending with whitespace or `+` is its own normal form |
| `ClusterStatus.KnownStateWrapped` | snakemake/assembly_R1041/cluster_status.py:9-26 | a known state wrapped in `+` marks, then whitespace, still gets the table's status |
| `ClusterStatus.WhitespaceBeforeMarkKept` | snakemake/assembly_R1041/cluster_status.py:9-26 | whitespace between a state and its trailing `+` marks is kept, and the line fails as an unknown state |
| `ClusterStatus.WhitespaceAfterMarkKept` | snakemake/assembly_R1041/cluster_status.py:9-26 | whitespace between leading `+` marks and a state is kept, and the line fails as an unknown state |
| `ClusterStatus.BlankStateSucceeds` | snakemake/assembly_R1041/cluster_status.py:9-24 | an empty line, one of only whitespace, or `+` marks inside whitespace normalises to `""` and gives success |
| `ClusterStatus.TrailingMarkStripped` | snakemake/assembly_R1041/cluster_status.py:9-26 | `"COMPLETED+"` gives success |
| `ClusterStatus.LeadingMarkStripped` | snakemake/assembly_R1041/cluster_status.py:9-26 | `"+COMPLETED"` gives success, because `strip('+')` also removes leading marks |
| `ClusterStatus.PaddedMarkStripped` | snakemake/assembly_R1041/cluster_status.py:9-26 | `"  COMPLETED+  "` gives success |
| `ClusterStatus.SpaceBeforeMarkKept` | snakemake/assembly_R1041/cluster_status.py:9-26 | `"COMPLETED +"` normalises to `"COMPLETED "` and fails as an unknown state |
| `ClusterStatus.SpaceAfterMarkKept` | snakemake/assembly_R1041/cluster_status.py:9-26 | `"+ COMPLETED"` normalises to `" COMPLETED"` and fails as an unknown state |
| `ClusterStatus.LowerCaseUnknown` | snakemake/assembly_R1041/cluster_status.py:26 | lookup is case-sensitive: `"completed"` fails as an unknown state |
| `ClusterStatus.ExtraWordsUnknown` | snakemake/assembly_R1041/cluster_status.py:26 | lookup is exact: `"CANCELLED by 123"` fails as an unknown state |
| `ClusterStatus.ThreeWords` | snakemake/assembly_R1041/cluster_status.py:11-26 | every key gets its table status, the three statuses print the three distinct words `running`, `success` and `failed`, and no other word is possible |
| `ClusterStatus.SacctListingLines` | snakemake/assembly_R1041/cluster_status.py:9 | in a padded `sacct` listing, only the padded state line decides |
| `ClusterStatus.PaddedStateLine` | snakemake/assembly_R1041/cluster_status.py:9-26 | the padded line `" COMPLETED "` gives success |
| `ClusterStatus.SacctListing` | snakemake/assembly_R1041/cluster_status.py:9-26 | a typical `sacct` listing of a completed job translates to success |
| `ClusterStatus.ShortOutputFails` | snakemake/assembly_R1041/cluster_status.py:9 | a single line gives the index error with 1 field, and two lines give it with 2 fields |
| `ClusterStatus.HeaderOnlySucceeds` | snakemake/assembly_R1041/cluster_status.py:9-24 | two header lines ended by a line break, with no job line, give success through the empty state |

## Left out

- The `sacct` subprocess call and the UTF-8 decode of its output (line 8) are external process I/O. The model takes the decoded text as its input. A decoding failure is therefore not modelled.
- Reading the job id from `sys.argv[-1]` (line 7) is command-line plumbing.
- The `print` at line 26 is stdout plumbing. `Outcome.Word` gives the word it would print.
- The imports of `os` and `warnings` (lines 2 and 4) are unused.
- The uncaught exceptions' traceback and non-zero exit status are represented only by the `Err` case and its `Error` value.
