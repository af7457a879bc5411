/** `scripts/check-env.js`: the environment file must define every required variable. */
module EnvCheck {
  import opened Wrappers
  import opened Seqs
  import opened Text

  const RequiredVars: seq<string> := ["NEXT_PUBLIC_SUPABASE_URL", "NEXT_PUBLIC_SUPABASE_ANON_KEY"]

  const FileMissingMessage: string := ".env.local file not found! Please create it with your Supabase credentials."
  const MissingPrefix: string := "Missing required environment variables: "
  const AddThemMessage: string := "Please add them to your .env.local file."

  /** A variable counts as defined when `NAME=` occurs anywhere in the file. */
  predicate Defines(content: string, name: string) {
    Contains(content, name + "=")
  }

  /** The loop over the required variables: those not defined, in the required order. */
  method MissingVars(required: seq<string>, content: string) returns (missing: seq<string>)
    ensures missing == Filter(required, (v: string) => !Defines(content, v))
    ensures forall v :: v in missing <==> v in required && !Defines(content, v)
  {
    missing := [];
    var i := 0;
    while i < |required|
      invariant 0 <= i <= |required|
      invariant missing == Filter(required[..i], (v: string) => !Defines(content, v))
    {
      FilterConcat(required[..i], [required[i]], (v: string) => !Defines(content, v));
      assert required[..i + 1] == required[..i] + [required[i]];
      if !Defines(content, required[i]) {
        missing := missing + [required[i]];
      }
      i := i + 1;
    }
    assert required[..i] == required;
  }

  /** The verdict: exit code and the lines the script itself writes to standard error. */
  datatype Verdict = Verdict(exitCode: int, errors: seq<string>)

  /** What the file system holds at the environment file's path: nothing, a file the
      synchronous read throws on, or a file with its UTF-8 content. */
  datatype EnvFile = Absent | Unreadable | Readable(content: string)

  /** `checkEnvFile`. A throwing read is uncaught, so Node ends the process with exit
      code 1 and its own stack trace, none of the script's messages. */
  method CheckEnvFile(file: EnvFile) returns (v: Verdict)
    ensures file.Absent? ==> v == Verdict(1, [FileMissingMessage])
    ensures file.Unreadable? ==> v == Verdict(1, [])
    ensures file.Readable? ==> (v.exitCode == 0 <==> forall i :: 0 <= i < |RequiredVars| ==> Defines(file.content, RequiredVars[i]))
    ensures file.Readable? && v.exitCode != 0 ==>
      v == Verdict(1, [MissingPrefix + Join(Filter(RequiredVars, (n: string) => !Defines(file.content, n)), ", "), AddThemMessage])
    ensures v.exitCode == 0 ==> v.errors == [] && file.Readable?
  {
    match file {
      case Absent =>
        return Verdict(1, [FileMissingMessage]);
      case Unreadable =>
        return Verdict(1, []);
      case Readable(content) =>
        var missing := MissingVars(RequiredVars, content);
        if |missing| > 0 {
          return Verdict(1, [MissingPrefix + Join(missing, ", "), AddThemMessage]);
        }
        v := Verdict(0, []);
        assert forall i :: 0 <= i < |RequiredVars| ==> RequiredVars[i] !in missing ==> Defines(content, RequiredVars[i]);
    }
  }
}
