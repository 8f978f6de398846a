/** Command dispatch of the shell: `execute_command` in src/main.rs picks a
    branch from the first word of the argument vector, and `main` calls it
    only for a line that has at least one word. The effects of the branches
    (changing the working directory, starting a program) are not performed
    here; the model returns which one was chosen. */
module Command {
  import opened LineSplit

  datatype Option<T> = None | Some(value: T)

  /** What `execute_command` decides to do with an argument vector. */
  datatype Action =
    | ChangeDir(path: string)       // `env::set_current_dir(&command[1])`
    | NoOp                          // `cd` without an argument
    | ForkExec(argv: seq<string>)   // `fork_exec(command)`

  /** The `match` of src/main.rs:40-47. Only the exact, case-sensitive word
      "cd" is built in; `command[0]` needs the vector to be non-empty. */
  function ExecuteCommand(command: seq<string>): (a: Action)
    requires |command| > 0
    ensures a.ChangeDir? <==> command[0] == "cd" && |command| >= 2
    ensures a.ChangeDir? ==> a.path == command[1]
    ensures a.NoOp? <==> command == ["cd"]
    ensures a.ForkExec? <==> command[0] != "cd"
    ensures a.ForkExec? ==> a.argv == command
  {
    if command[0] == "cd" then
      if |command| > 1 then ChangeDir(command[1]) else NoOp
    else
      ForkExec(command)
  }

  /** `cd` uses its first argument and ignores every further one. */
  lemma CdIgnoresExtraArguments(path: string, rest: seq<string>)
    ensures ExecuteCommand(["cd", path] + rest) == ChangeDir(path)
  {
  }

  /** One turn of the loop in `main` after the line is read
      (src/main.rs:19-25): split the line, and dispatch it only when it has a
      word, so that `command[0]` is always in bounds. */
  method HandleLine(input: string) returns (r: Option<Action>)
    ensures r.None? <==> AllWhitespace(input)
    ensures r.Some? ==> |Words(input)| > 0 && r.value == ExecuteCommand(Words(input))
  {
    var splitLine := Split(input);
    if |splitLine| > 0 {
      r := Some(ExecuteCommand(splitLine));
    } else {
      r := None;
    }
  }

  /** A typed `cd` line: the padding and the extra argument play no part. */
  lemma CdLineExample()
    ensures Words("  cd \t/tmp  x\n") == ["cd", "/tmp", "x"]
    ensures ExecuteCommand(Words("  cd \t/tmp  x\n")) == ChangeDir("/tmp")
  {
    var t := "cd" + (" \t" + ("/tmp" + ("  " + ("x" + "\n"))));
    assert "  cd \t/tmp  x\n" == "  " + t;
    WordsEmptyIff("  ");
    assert t[0] == 'c';
    WordsAppend("  ", t);
    CdLineWords();
  }

  lemma CdLineWords()
    ensures Words("cd" + (" \t" + ("/tmp" + ("  " + ("x" + "\n"))))) == ["cd", "/tmp", "x"]
  {
    assert IsWord("cd") && IsWord("/tmp") && IsWord("x");
    assert AllWhitespace(" \t") && AllWhitespace("  ") && AllWhitespace("\n");
    WordThenGap("x", "\n", "");
    assert "\n" + "" == "\n";
    WordThenGap("/tmp", "  ", "x" + "\n");
    WordThenGap("cd", " \t", "/tmp" + ("  " + ("x" + "\n")));
  }

  /** A word followed by whitespace is split off whole. */
  lemma WordThenGap(w: string, g: string, rest: string)
    requires IsWord(w) && |g| > 0 && AllWhitespace(g)
    ensures Words(w + (g + rest)) == [w] + Words(rest)
  {
    assert (g + rest)[0] == g[0];
    WordsAppend(w, g + rest);
    WordsOfWord(w);
    WordsAppend(g, rest);
    WordsEmptyIff(g);
    assert Words(g + rest) == Words(rest);
  }
}
