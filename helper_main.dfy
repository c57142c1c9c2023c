/** Argument dispatch of the privileged helper: the command line selects a restore job,
    a write job, or a usage error that ends the process with status 1 before the event
    loop starts. `args[0]` is the program name, as in `QCoreApplication::arguments()`. */
module HelperMain {

  datatype Dispatch =
    | StartRestore(device: string)
    | StartWrite(image: string, device: string, md5: string)
    | UsageError(message: string, status: int)

  const UsageMessage: string := "Helper: Wrong arguments entered"

  function DispatchArguments(args: seq<string>): (d: Dispatch)
    ensures d.StartRestore? <==> |args| == 3 && args[1] == "restore"
    ensures d.StartRestore? ==> d.device == args[2]
    ensures d.StartWrite? <==> |args| == 5 && args[1] == "write"
    ensures d.StartWrite? ==> d.image == args[2] && d.device == args[3] && d.md5 == args[4]
    ensures d.UsageError? ==> d.status == 1 && d.message == UsageMessage
  {
    if |args| == 3 && args[1] == "restore" then StartRestore(args[2])
    else if |args| == 5 && args[1] == "write" then StartWrite(args[2], args[3], args[4])
    else UsageError(UsageMessage, 1)
  }

  /** The subcommand alone does not decide: with the wrong number of arguments a valid
      subcommand is a usage error. */
  lemma {:induction false} WrongCountIsUsage(args: seq<string>)
    requires |args| >= 2 && (args[1] == "restore" || args[1] == "write")
    requires |args| != 3 && |args| != 5
    ensures DispatchArguments(args).UsageError?
  {
  }

  /** The subcommand is compared exactly: any other spelling, a case variant included,
      is a usage error. */
  lemma CaseVariantIsUsage(program: string, sub: string, rest: seq<string>)
    requires sub != "restore" && sub != "write"
    ensures DispatchArguments([program, sub] + rest).UsageError?
  {
    var args := [program, sub] + rest;
    assert args[1] == sub;
  }
}
