# catsh: line splitting and command dispatch

catsh is a small interactive shell written in Rust. Its `main` loop prints a
prompt, reads one line, splits it into words and, when the line has at least
one word, hands the word vector to `execute_command`. That function treats
`cd` as a built-in and sends everything else to `fork_exec`.

This project models the two pieces of that loop that compute something:

- `line_split.dfy`, module `LineSplit`: `split` (src/main.rs:29-37), which
  collects the words that `str::split_whitespace` yields. `Split` is a method
  with the source's loop. `Words` is the function that specifies it: the
  maximal whitespace-free runs of the line, left to right. Whitespace is
  Unicode's White_Space property, the same set `char::is_whitespace` uses,
  written out as a set of 25 code points. The lemmas prove these facts about
  `Words`:
  - every word is non-empty and holds no whitespace;
  - the words laid end to end are the line with its whitespace deleted;
  - the result is empty exactly when the line is whitespace only;
  - a cut where whitespace touches splits the words the same way;
  - leading, trailing and repeated whitespace do not matter;
  - joining the words with single spaces and splitting again gives them back.
- `command.dfy`, module `Command`: the dispatch of `execute_command`
  (src/main.rs:39-48). It is a function that returns an `Action` and has no
  effects: `ChangeDir(path)`, `NoOp` or `ForkExec(argv)`. `HandleLine` models
  the part of `main` that splits a line and calls `execute_command` only when
  there is a word (src/main.rs:19-25). That guard is what keeps
  `command[0]` in bounds, and here it is the precondition of
  `ExecuteCommand`.

The design this shell aims at is broader than its code. It calls for
`&&`, `||`, `|` and `;` operators, subshells, `exit`, `!` and `exec`
built-ins, `cd` without an argument going to the home directory, and
exit-status mapping. None of that is in src/main.rs, so the model follows
the code. In particular, `cd` without an argument does nothing.

## Model

| member | source | states |
|---|---|---|
| `LineSplit.Split` | src/main.rs:29-37 | The vector returned is exactly the words of the line in input order. Every word is non-empty and free of whitespace. Laid end to end, the words are the line with its whitespace removed. The vector is empty exactly when the line is whitespace only. |
| `LineSplit.WordLength` | src/main.rs:32 | Where `split_whitespace` ends a word: the longest prefix without whitespace. Everything before it is not whitespace, and the character after it, if any, is whitespace. |
| `LineSplit.WordLengthUnique` | src/main.rs:32 | Those two facts fix the end of a word uniquely. |
| `LineSplit.WordsAreWords` | src/main.rs:32-33 | Every word pushed is non-empty and contains no whitespace character. |
| `LineSplit.WordsConcat` | src/main.rs:30-36 | Concatenating the words in order gives the input with every whitespace character deleted. No non-whitespace character is lost, added or reordered. |
| `LineSplit.WordsEmptyIff` | src/main.rs:32-36 | The line yields no words if and only if every character is whitespace. This includes the bare newline that `read_line` returns for an empty line. |
| `LineSplit.WordsAppend` | src/main.rs:32 | If the cut between two strings touches whitespace on either side, the words of their concatenation are the words of the first followed by the words of the second. |
| `LineSplit.WordsAppendAfterWhitespace` | src/main.rs:32 | The same statement, for a first part that starts with whitespace. |
| `LineSplit.WordsAppendAfterWord` | src/main.rs:32 | The same statement, for a first part that starts with a word. |
| `LineSplit.WordLengthAppend` | src/main.rs:32 | Text appended after a whitespace boundary does not lengthen the first word. |
| `LineSplit.WordsOfWord` | src/main.rs:32-33 | A single word with no whitespace splits into just itself. |
| `LineSplit.LeadingTrailingIrrelevant` | src/main.rs:29-37 | Whitespace before or after the line does not change its words. This covers the trailing newline that `read_line` leaves. |
| `LineSplit.GapWidthIrrelevant` | src/main.rs:29-37 | Any non-empty whitespace run between two parts of a line gives the same words as a single space there. |
| `LineSplit.SplitJoin` | src/main.rs:29-37 | Splitting the single-space join of non-empty whitespace-free words gives back exactly those words. |
| `LineSplit.SplitIdempotent` | src/main.rs:29-37 | Joining the split of a line with single spaces and splitting again gives the same vector. |
| `Command.ExecuteCommand` | src/main.rs:39-48 | Requires a non-empty vector, since `command[0]` is read. The exact, case-sensitive word `cd` with at least one argument changes to the first argument. `cd` alone does nothing. Any other first word goes to `fork_exec` with the whole vector unchanged. |
| `Command.CdIgnoresExtraArguments` | src/main.rs:41-45 | `cd` uses its first argument and ignores the rest. |
| `Command.HandleLine` | src/main.rs:19-25 | There is no dispatch exactly when the line is whitespace only. Otherwise the line is split and dispatched, and its word vector is non-empty, so the precondition of `ExecuteCommand` holds. |
| `Command.CdLineExample` | src/main.rs:19-45 | The line `"  cd \t/tmp  x\n"` splits into `cd`, `/tmp`, `x` and selects a change to `/tmp`. |
| `Command.CdLineWords` | src/main.rs:32-33 | The words of the example line after its leading spaces are `cd`, `/tmp`, `x`. |
| `Command.WordThenGap` | src/main.rs:32-33 | A word followed by whitespace is split off whole, and splitting continues after the whitespace. |

## Left out

- The read-eval-print loop in `main` (src/main.rs:5-27), which is console I/O: writing and flushing the prompt, `read_line`, the `Ok(0)` end-of-input break and the debug `println!` of the word vector. `HandleLine` covers one turn after a line has been read. An end-of-input read gives the empty line, for which `HandleLine` dispatches nothing.
- `env::set_current_dir(...).expect("")` (src/main.rs:43), a filesystem effect that panics on failure. It appears only as the `ChangeDir(path)` decision.
- `fork_exec` (src/main.rs:50-52), whose body is empty. It appears only as the `ForkExec(argv)` decision.
- Rust's `String` is UTF-8 bytes. The model works on sequences of Unicode scalar values (`string`), which is what `split_whitespace` iterates over, so byte offsets are not modelled.
