/** `main`: where the text to mask comes from (`--text`, `--file` or piped
    standard input), the two failures reported to the user, and what the
    script prints. Argument parsing, the file system and the terminal are
    given as values. */
module Cli {
  import opened Text
  import Masking

  /** The parsed command line: each flag absent (`None`) or given with its
      value. `file` is the path as `pathlib.Path` renders it; a `Path` is
      always truthy, so a given `--file` is never skipped. */
  datatype Args = Args(text: Option<string>, file: Option<string>)

  /** What `--file` gives when `Path.exists()` does not report it missing:
      the contents `read_text(encoding="utf-8")` returns, or an exception.
      `Unreadable` covers both an `exists()` check that itself raises (a
      permission error on a parent directory, which Python 3.8 to 3.12
      re-raise) and a read that raises (a directory, no permission, bad
      UTF-8). */
  datatype Entry = Readable(contents: string) | Unreadable

  /** What `main` consults besides its arguments: the paths not reported missing,
      whether standard input is a terminal, and what it holds when piped. */
  datatype Env = Env(files: map<string, Entry>, stdinIsTty: bool, stdin: string)

  datatype Origin = FromText | FromFile(path: string) | FromStdin

  /** The text to mask and where it came from. */
  datatype Input = Input(origin: Origin, text: string)

  datatype InputError =
    | FileNotFound(path: string)   // `--file` names a path that does not exist
    | ReadFailed(path: string)     // checking or reading the path raises
    | NoInput                      // no usable flag and standard input is a terminal

  datatype Result<+T, +E> = Ok(value: T) | Err(error: E)

  /** Python truthiness of an optional string: `None` and the empty string
      are the only falsy values. */
  predicate Truthy(flag: Option<string>)
    ensures !Truthy(flag) <==> flag == None || flag == Some("")
  {
    flag.Some? && flag.value != ""
  }

  /** Picks the text to mask: a non-empty `--text` first, then `--file`,
      then piped standard input. */
  function SelectInput(args: Args, env: Env): (r: Result<Input, InputError>)
    ensures (r.Ok? && r.value.origin == FromText) <==> Truthy(args.text)
    ensures r.Ok? && r.value.origin == FromText ==> r.value.text == args.text.value
    ensures (r.Ok? && r.value.origin.FromFile?) <==>
              && !Truthy(args.text) && args.file.Some?
              && args.file.value in env.files && env.files[args.file.value].Readable?
    ensures r.Ok? && r.value.origin.FromFile? ==>
              && r.value.origin.path == args.file.value
              && r.value.text == env.files[args.file.value].contents
    ensures (r.Ok? && r.value.origin == FromStdin) <==>
              !Truthy(args.text) && args.file.None? && !env.stdinIsTty
    ensures r.Ok? && r.value.origin == FromStdin ==> r.value.text == env.stdin
    ensures (r.Err? && r.error.FileNotFound?) <==>
              !Truthy(args.text) && args.file.Some? && args.file.value !in env.files
    ensures (r.Err? && r.error.ReadFailed?) <==>
              && !Truthy(args.text) && args.file.Some?
              && args.file.value in env.files && env.files[args.file.value].Unreadable?
    ensures r.Err? && !r.error.NoInput? ==> r.error.path == args.file.value
    ensures r == Err(NoInput) <==> !Truthy(args.text) && args.file.None? && env.stdinIsTty
  {
    if Truthy(args.text) then
      Ok(Input(FromText, args.text.value))
    else if args.file.Some? then
      var path := args.file.value;
      if path !in env.files then Err(FileNotFound(path))
      else match env.files[path]
        case Readable(contents) => Ok(Input(FromFile(path), contents))
        case Unreadable => Err(ReadFailed(path))
    else if env.stdinIsTty then
      Err(NoInput)
    else
      Ok(Input(FromStdin, env.stdin))
  }

  /** A non-empty `--text` is used even when `--file` is given; neither the
      file system nor standard input is consulted. */
  lemma TextWins(args: Args, env: Env, env': Env)
    requires Truthy(args.text)
    ensures SelectInput(args, env) == SelectInput(Args(args.text, None), env')
    ensures SelectInput(args, env) == Ok(Input(FromText, args.text.value))
  {
  }

  /** An empty `--text` counts as absent. */
  lemma FalsyTextFallsThrough(args: Args, env: Env)
    requires !Truthy(args.text)
    ensures SelectInput(args, env) == SelectInput(Args(None, args.file), env)
  {
  }

  /** With no usable `--text` and a `--file`, standard input is not looked at. */
  lemma FileIgnoresStdin(args: Args, env: Env, tty: bool, stdin: string)
    requires !Truthy(args.text) && args.file.Some?
    ensures SelectInput(args, env) == SelectInput(args, Env(env.files, tty, stdin))
  {
  }

  /** A terminal on standard input is an error, whatever the input would hold:
      it is not read. */
  lemma TerminalNotRead(args: Args, env: Env, stdin: string)
    requires !Truthy(args.text) && args.file.None? && env.stdinIsTty
    ensures SelectInput(args, env) == Err(NoInput)
    ensures SelectInput(args, env.(stdin := stdin)) == Err(NoInput)
  {
  }

  /** The message `sys.exit` is given for a missing file. */
  const FILE_NOT_FOUND: string := "❌  File not found: "

  /** The message `sys.exit` is given when there is no input. */
  const NO_INPUT: string := "❌  --text か --file を指定するかパイプで入力してください"

  /** How a run of the script ends: the masked text and a newline on standard
      output; `sys.exit` with a message, which Python writes to standard error
      with status 1; or an uncaught exception from checking or reading the file. */
  datatype Outcome =
    | Printed(stdout: string)
    | Exited(status: int, message: string)
    | Raised(error: InputError)

  /** One run of `main`, with the model as a function from prompt to
      completion. */
  function Run(args: Args, env: Env, llm: string -> string): (o: Outcome)
    ensures o.Exited? ==> o.status == 1
    ensures o.Printed? <==> SelectInput(args, env).Ok?
    ensures o.Printed? ==>
              && |o.stdout| >= 1 && o.stdout[|o.stdout| - 1] == '\n'
              && Trimmed(o.stdout[..|o.stdout| - 1])
              && !Contains(o.stdout[..|o.stdout| - 1], Masking.AFTER_MASK)
    ensures o.Raised? ==> o.error.ReadFailed? && SelectInput(args, env) == Err(o.error)
  {
    match SelectInput(args, env)
    case Ok(input) =>
      var masked := Masking.MaskText(llm, input.text);
      assert (masked + "\n")[..|masked|] == masked;
      Printed(masked + "\n")
    case Err(FileNotFound(path)) => Exited(1, FILE_NOT_FOUND + path)
    case Err(NoInput) => Exited(1, NO_INPUT)
    case Err(ReadFailed(path)) => Raised(ReadFailed(path))
  }

  /** The text printed is what the model's completion of the prompt built
      from the selected input yields. */
  lemma RunPrintsMaskedInput(args: Args, env: Env, llm: string -> string)
    requires SelectInput(args, env).Ok?
    ensures Run(args, env, llm)
            == Printed(Masking.MaskText(llm, SelectInput(args, env).value.text) + "\n")
  {
  }

  /** A `--file` that does not exist ends the run with status 1 and a message
      that quotes the path. */
  lemma MissingFileQuotesPath(args: Args, env: Env, llm: string -> string)
    requires !Truthy(args.text) && args.file.Some? && args.file.value !in env.files
    ensures Run(args, env, llm).Exited?
    ensures Run(args, env, llm).status == 1
    ensures Contains(Run(args, env, llm).message, args.file.value)
  {
    var path := args.file.value;
    var msg := FILE_NOT_FOUND + path;
    assert msg[|FILE_NOT_FOUND|..|FILE_NOT_FOUND| + |path|] == path;
    assert OccursAt(msg, path, |FILE_NOT_FOUND|);
  }

  /** With no usable flag and a terminal on standard input the run ends with
      status 1 and the usage message, and the model is never consulted. */
  lemma NoInputOnTerminal(args: Args, env: Env, llm: string -> string, llm': string -> string)
    requires !Truthy(args.text) && args.file.None? && env.stdinIsTty
    ensures Run(args, env, llm) == Exited(1, NO_INPUT)
    ensures Run(args, env, llm) == Run(args, env, llm')
  {
  }
}
