/** The command-line check of the script. */
module Arguments {

  /** check_argv: the script accepts exactly one argument, the host-list
      file, after its own name. The usage text it prints otherwise is output
      only. The source reads `args[0]` on the rejecting path, so the argument
      vector holds at least the program name. */
  function CheckArgv(args: seq<string>): (ok: bool)
    requires args != []
    ensures ok <==> |args| == 2
    ensures ok ==> |args[1..]| == 1
  {
    |args| == 2
  }
}
