/** The keyword decision of the `-k` command-line option (main.c:146-168):
    which control signal to send to a running master, or parse-only. */
module Options {

  /** The control signals the option can select. */
  datatype Signal = SIGHUP | SIGUSR1 | SIGTERM | SIGKILL

  /** What the branch does with its argument: remember a signal to send
      (`cpx_opt_send_signal`), remember parse-only (`cpx_opt_parse_cfg_only`),
      or print the usage text and exit with status 1 (`cpx_usage`). */
  datatype KillAction = Send(signal: Signal) | ParseOnly | Usage

  /** The keywords in the order the branch tries them, with their action. */
  const Keywords: seq<(string, KillAction)> :=
    [("reload", Send(SIGHUP)), ("rotate", Send(SIGUSR1)), ("shutdown", Send(SIGTERM)),
     ("kill", Send(SIGKILL)), ("parse", ParseOnly)]

  /** `strncmp(arg, keyword, strlen(arg)) == 0`: the first `strlen(arg)`
      characters agree, and since `keyword` ends in NUL where a longer
      `arg` still has a character, that is exactly "arg is a prefix of
      keyword" for an argument that, like every C string, holds no NUL. */
  predicate Abbreviates(arg: string, keyword: string) {
    arg <= keyword
  }

  /** The whole `case 'k'` branch: an empty argument prints usage, then
      the keywords are tried in order (see `KillOptionFirstMatch`). */
  function KillOption(arg: string): (a: KillAction)
    ensures |arg| < 1 ==> a == Usage
    ensures a == Usage || exists k :: 0 <= k < |Keywords| && Abbreviates(arg, Keywords[k].0) && a == Keywords[k].1
  {
    assert Keywords[0].0 == "reload" && Keywords[1].0 == "rotate" && Keywords[2].0 == "shutdown";
    assert Keywords[3].0 == "kill" && Keywords[4].0 == "parse";
    if |arg| < 1 then Usage
    else if Abbreviates(arg, "reload") then Send(SIGHUP)
    else if Abbreviates(arg, "rotate") then Send(SIGUSR1)
    else if Abbreviates(arg, "shutdown") then Send(SIGTERM)
    else if Abbreviates(arg, "kill") then Send(SIGKILL)
    else if Abbreviates(arg, "parse") then ParseOnly
    else Usage
  }

  /** Keyword `k` is the first in table order that `arg` abbreviates. */
  predicate FirstMatch(arg: string, k: int) {
    0 <= k < |Keywords| && Abbreviates(arg, Keywords[k].0) &&
    forall m :: 0 <= m < k ==> !Abbreviates(arg, Keywords[m].0)
  }

  /** The branch against the keyword table: usage exactly for the empty
      argument and for one that abbreviates no keyword; otherwise the action
      of the first keyword the argument abbreviates. */
  lemma KillOptionFirstMatch(arg: string)
    ensures KillOption(arg) == Usage <==>
              |arg| < 1 || forall k :: 0 <= k < |Keywords| ==> !Abbreviates(arg, Keywords[k].0)
    ensures KillOption(arg) != Usage ==>
              exists k :: FirstMatch(arg, k) && KillOption(arg) == Keywords[k].1
  {
    assert Keywords[0].0 == "reload" && Keywords[1].0 == "rotate" && Keywords[2].0 == "shutdown";
    assert Keywords[3].0 == "kill" && Keywords[4].0 == "parse";
    if |arg| >= 1 {
      if Abbreviates(arg, "reload") {
        assert FirstMatch(arg, 0);
      } else if Abbreviates(arg, "rotate") {
        assert FirstMatch(arg, 1);
      } else if Abbreviates(arg, "shutdown") {
        assert FirstMatch(arg, 2);
      } else if Abbreviates(arg, "kill") {
        assert FirstMatch(arg, 3);
      } else if Abbreviates(arg, "parse") {
        assert FirstMatch(arg, 4);
      }
    }
  }

  /** Abbreviations resolve by table order: "r" and "re" mean reload,
      "ro" means rotate; any single first letter selects its keyword; a
      word longer than its keyword matches nothing. */
  lemma AbbreviationExamples()
    ensures KillOption("r") == Send(SIGHUP) && KillOption("re") == Send(SIGHUP)
    ensures KillOption("ro") == Send(SIGUSR1)
    ensures KillOption("s") == Send(SIGTERM) && KillOption("k") == Send(SIGKILL)
    ensures KillOption("p") == ParseOnly
    ensures KillOption("") == Usage && KillOption("reloads") == Usage && KillOption("x") == Usage
  {
    assert "ro"[1] != "reload"[1];
    assert "s"[0] != "reload"[0] && "s"[0] != "rotate"[0];
    assert "k"[0] != "reload"[0] && "k"[0] != "rotate"[0] && "k"[0] != "shutdown"[0];
    assert "p"[0] != "reload"[0] && "p"[0] != "rotate"[0] && "p"[0] != "shutdown"[0] && "p"[0] != "kill"[0];
    assert "x"[0] != "reload"[0] && "x"[0] != "rotate"[0] && "x"[0] != "shutdown"[0];
    assert "x"[0] != "kill"[0] && "x"[0] != "parse"[0];
  }
}
