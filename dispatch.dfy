/**
 * The command-line decision at the top of getme's main: which invocation
 * form was used, which keyword to search for and which URLs to visit.
 * `args` includes the program name at index 0, as the source's argument
 * vector does.  Standard input is not read here: what reading it gave is a
 * parameter.
 */
module Dispatch {

  /** The outcome of reading the URL list from standard input, one URL per
      line: the lines read, or the error that stopped the reading. */
  datatype StdinRead = Lines(lines: seq<string>) | ReadFailed(cause: string)

  /** What main goes on to do. */
  datatype Decision =
    | Usage                                   // print the two usage lines; nothing else
    | InputError(cause: string)               // report the read error; fetch nothing
    | Run(urls: seq<string>, keyword: string) // visit the URLs, searching for the keyword

  /**
   * With other than two or three arguments (program name included) the usage
   * text is printed and nothing is fetched.  Otherwise the keyword is the last
   * argument; with three arguments the only URL is the second one, and with
   * two the URLs are the lines of standard input, unless reading it failed.
   */
  function Decide(args: seq<string>, stdin: StdinRead): (d: Decision)
    ensures d.Usage? <==> |args| != 2 && |args| != 3
    ensures d.Run? ==> d.keyword == args[|args| - 1]
    ensures |args| == 3 ==> d.Run? && d.urls == [args[1]]
    ensures |args| == 2 ==> (d.Run? <==> stdin.Lines?) && (d.Run? ==> d.urls == stdin.lines)
    ensures d.InputError? ==> |args| == 2 && stdin == ReadFailed(d.cause)
  {
    if |args| != 2 && |args| != 3 then Usage
    else
      var keyword := args[|args| - 1];
      if |args| == 3 then Run([args[1]], keyword)
      else
        match stdin
        case Lines(lines) => Run(lines, keyword)
        case ReadFailed(cause) => InputError(cause)
  }

  /** Standard input matters only in the one-argument form: for any other
      argument count the decision is the same whatever it holds. */
  lemma StdinOnlyForKeywordAlone(args: seq<string>, a: StdinRead, b: StdinRead)
    requires |args| != 2
    ensures Decide(args, a) == Decide(args, b)
  {
  }
}
