/** The process boundary. Spawning a child, piping its streams and killing it
    on interrupt are outside the model: a shell is an oracle from a command
    line to what the child wrote on its two streams. */
module Process {

  /** The captured standard output and standard error of one command. */
  datatype Output = Output(out: string, err: string)

  /** `cli.comm`: the command line run through the shell. */
  type Shell = string -> Output

  /** `old/cli.comm` after its guard: the argument vector run without a shell. */
  type ArgvRunner = seq<string> -> Output
}
