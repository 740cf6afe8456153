/** The command line `startWorker` launches, as the worker process reads it back: what the
    manager writes into the argument vector is what the worker's option parsing recovers. */
module CommandLine {
  import opened Prelude
  import opened Decimal
  import opened WorkerManager
  import opened WorkerRuntime

  /** A long option's name: it contains no `=`, so `--name=` ends where the value begins. */
  predicate OptionName(n: string) {
    forall k :: 0 <= k < |n| ==> n[k] != '='
  }

  /** An argument written for option `n` never starts with the `--m=` of another option. */
  lemma OtherOptionNoPrefix(n: string, m: string, x: string)
    requires OptionName(n) && OptionName(m) && n != m
    ensures !HasPrefix("--" + n + "=" + x, "--" + m + "=")
  {
    var s := "--" + n + "=" + x;
    var p := "--" + m + "=";
    if |p| <= |s| {
      if |m| < |n| {
        assert s[2 + |m|] == n[|m|] && p[2 + |m|] == '=';
      } else if |m| == |n| {
        var k :| 0 <= k < |m| && n[k] != m[k];
        assert s[2 + k] == n[k] && p[2 + k] == m[k];
      } else {
        assert s[2 + |n|] == '=' && p[2 + |n|] == m[|n|];
      }
    }
  }

  /** The value the worker finds for `n` in the flag `startWorker` writes for `m`. */
  lemma FlagOption(m: string, v: Option<int>, n: string)
    requires OptionName(n) && OptionName(m)
    ensures OptionValue(Flag(m, v), n) ==
              if m == n && v.Some? then Some(IntToString(v.value)) else None
  {
    if v.Some? {
      var arg := "--" + m + "=" + IntToString(v.value);
      assert Flag(m, v) == [arg];
      if m == n {
        assert arg[..|"--" + n + "="|] == "--" + n + "=";
        assert arg[|"--" + n + "="|..] == IntToString(v.value);
        OptionValueFirst([arg], n, 0);
      } else {
        OtherOptionNoPrefix(m, n, IntToString(v.value));
      }
    }
  }

  /** The optional flags of `buildWorkerCommand`, in the order it appends them. */
  function Flags(o: StartOptions): seq<string> {
    Flag("tries", o.tries) + Flag("timeout", o.timeout) + Flag("memory", o.memory)
    + Flag("sleep", o.sleep)
  }

  /** What an optional start setting reads back as: the number when set, else nothing. */
  function Rendered(v: Option<int>): Option<string> {
    if v.Some? then Some(IntToString(v.value)) else None
  }

  /** Each option name other than the four flags' finds nothing among them. */
  lemma FlagsOption(o: StartOptions, n: string)
    requires OptionName(n)
    ensures OptionValue(Flags(o), n) ==
              if n == "tries" then Rendered(o.tries)
              else if n == "timeout" then Rendered(o.timeout)
              else if n == "memory" then Rendered(o.memory)
              else if n == "sleep" then Rendered(o.sleep)
              else None
  {
    var a := Flag("tries", o.tries);
    var b := Flag("timeout", o.timeout);
    var c := Flag("memory", o.memory);
    var d := Flag("sleep", o.sleep);
    FlagOption("tries", o.tries, n);
    FlagOption("timeout", o.timeout, n);
    FlagOption("memory", o.memory, n);
    FlagOption("sleep", o.sleep, n);
    OptionValueConcat(a + b + c, d, n);
    OptionValueConcat(a + b, c, n);
    OptionValueConcat(a, b, n);
  }

  /** The fixed arguments after `watchtower:worker`: the queue and the worker id. */
  lemma HeadOption(q: string, id: string, n: string)
    requires |q| <= 1 || q[0] != '-'
    requires OptionName(n)
    ensures OptionValue([q, "--worker-id=" + id], n) == if n == "worker-id" then Some(id) else None
  {
    var w := "--worker-id=" + id;
    assert !HasPrefix(q, "--" + n + "=") by {
      if |q| > 0 {
        assert ("--" + n + "=")[0] == '-';
      }
    }
    if n == "worker-id" {
      assert w[..|"--" + n + "="|] == "--" + n + "=";
      assert w[|"--" + n + "="|..] == id;
      OptionValueFirst([q, w], n, 1);
    } else {
      assert w == "--" + "worker-id" + "=" + id;
      OtherOptionNoPrefix("worker-id", n, id);
    }
  }

  /** An integer option that was written as a decimal reads back as that number. */
  lemma IntOptionReadsBack(args: seq<string>, n: string, v: Option<int>, default: int)
    requires OptionValue(args, n) == Rendered(v)
    ensures IntOption(args, n, default) == v.GetOr(default)
  {
    if v.Some? {
      IntRoundTrip(v.value);
    }
  }

  /** What the worker finds for each option in the arguments `startWorker` passes it. */
  lemma ArgsOption(q: string, id: string, o: StartOptions, n: string)
    requires |q| <= 1 || q[0] != '-'
    requires OptionName(n)
    ensures OptionValue([q, "--worker-id=" + id] + Flags(o), n) ==
              if n == "worker-id" then Some(id)
              else if n == "tries" then Rendered(o.tries)
              else if n == "timeout" then Rendered(o.timeout)
              else if n == "memory" then Rendered(o.memory)
              else if n == "sleep" then Rendered(o.sleep)
              else None
  {
    HeadOption(q, id, n);
    FlagsOption(o, n);
    OptionValueConcat([q, "--worker-id=" + id], Flags(o), n);
  }

  /** The worker's option names are option names. */
  lemma WorkerOptionNames()
    ensures OptionName("worker-id") && OptionName("tries") && OptionName("timeout")
    ensures OptionName("memory") && OptionName("sleep") && OptionName("rest")
  {
  }

  /** Each option of the worker's signature, read from what `startWorker` passes. */
  lemma StartArgsOptions(q: string, id: string, o: StartOptions)
    requires |q| <= 1 || q[0] != '-'
    ensures var args := [q, "--worker-id=" + id] + Flags(o);
            && OptionValue(args, "worker-id") == Some(id)
            && OptionValue(args, "tries") == Rendered(o.tries)
            && OptionValue(args, "timeout") == Rendered(o.timeout)
            && OptionValue(args, "memory") == Rendered(o.memory)
            && OptionValue(args, "sleep") == Rendered(o.sleep)
            && OptionValue(args, "rest") == None
  {
    WorkerOptionNames();
    ArgsOption(q, id, o, "worker-id");
    ArgsOption(q, id, o, "tries");
    ArgsOption(q, id, o, "timeout");
    ArgsOption(q, id, o, "memory");
    ArgsOption(q, id, o, "sleep");
    ArgsOption(q, id, o, "rest");
  }

  /** A worker started by `startWorker` runs on the queue and under the id it was given,
      with each setting that was passed and the signature's default for each that was not. */
  lemma StartCommandRoundTrip(php: string, artisan: string, id: string, q: string,
                              o: StartOptions)
    requires |q| <= 1 || q[0] != '-'
    ensures ParseWorkerArgs(BuildWorkerCommand(php, artisan, id, q, o)[3..]) ==
              WorkerArgs(q, Some(id), o.tries.GetOr(DefaultTries), o.timeout.GetOr(DefaultTimeout),
                         o.memory.GetOr(DefaultMemory), o.sleep.GetOr(DefaultSleep), DefaultRest)
  {
    var argv := BuildWorkerCommand(php, artisan, id, q, o);
    var args := [q, "--worker-id=" + id] + Flags(o);
    assert argv[3..] == args by {
      assert argv[3..] == argv[3..5] + argv[5..];
    }
    assert args[0] == q;
    assert Positional(args) == Some(q);
    StartArgsOptions(q, id, o);
    IntOptionReadsBack(args, "tries", o.tries, DefaultTries);
    IntOptionReadsBack(args, "timeout", o.timeout, DefaultTimeout);
    IntOptionReadsBack(args, "memory", o.memory, DefaultMemory);
    IntOptionReadsBack(args, "sleep", o.sleep, DefaultSleep);
    IntOptionReadsBack(args, "rest", None, DefaultRest);
  }
}
