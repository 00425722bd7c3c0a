/**
 * The engine invoker: the module-level `restic` function of backup.py. It builds
 * the command vector and the child environment, runs the external engine and
 * turns a non-zero exit status into a `ResticError`.
 *
 * The engine process itself is not modelled: an `Oracle` stands for it and
 * answers each invocation with an exit status.
 */
module Engine {
  import opened Results

  /** First word of every command vector: the engine executable. */
  const Executable: string := "restic"

  /** The variable of the child environment that carries the repository password. */
  const PasswordVar: string := "RESTIC_PASSWORD"

  /** One run of the engine: its command vector and the environment it is given. */
  datatype Invocation = Invocation(argv: seq<string>, env: map<string, string>)

  /**
   * The engine seen from outside. It is given every earlier invocation of the
   * same batch (the engine's on-disk state is whatever those left behind) and
   * the new invocation, and yields that invocation's exit status.
   */
  type Oracle = (seq<Invocation>, Invocation) -> int

  /**
   * The exception raised for a non-zero exit status. Its stdout and stderr
   * fields are always `None`, because the output is not captured, so they
   * are not represented.
   */
  datatype ResticError = ResticError(command: string, retval: int)

  /** The extra arguments: `None` means no extra arguments. */
  function ExtraArgs(args: Option<seq<string>>): seq<string>
  {
    match args
    case None => []
    case Some(a) => a
  }

  /** The option value that hands the identity file to the engine's sftp transport. */
  function IdentityOption(identityFile: string): string
  {
    "sftp.args=-i " + identityFile
  }

  /** The command vector the engine is started with. */
  function ArgVector(url: string, command: string, args: Option<seq<string>>, identityFile: Option<string>): seq<string>
  {
    [Executable, "-r", url, command] + ExtraArgs(args)
      + (if Present(identityFile) then ["-o", IdentityOption(identityFile.value)] else [])
  }

  /** The child environment: a copy of the parent's with the password variable set. */
  function ChildEnv(environ: map<string, string>, password: string): map<string, string>
  {
    environ[PasswordVar := password]
  }

  /**
   * A vector is the command vector of a call exactly when it is the engine
   * executable, `-r`, the location and the sub-command, then the extra
   * arguments, then the identity option when an identity file is set, and
   * nothing more.
   */
  lemma ArgVectorShape(v: seq<string>, url: string, command: string, args: Option<seq<string>>, identityFile: Option<string>)
    ensures v == ArgVector(url, command, args, identityFile) <==>
      && |v| == 4 + |ExtraArgs(args)| + (if Present(identityFile) then 2 else 0)
      && v[..4] == [Executable, "-r", url, command]
      && v[4..4 + |ExtraArgs(args)|] == ExtraArgs(args)
      && (Present(identityFile) ==> v[4 + |ExtraArgs(args)|..] == ["-o", IdentityOption(identityFile.value)])
  {
    var a := ExtraArgs(args);
    var tail: seq<string> := if Present(identityFile) then ["-o", IdentityOption(identityFile.value)] else [];
    var w := ArgVector(url, command, args, identityFile);
    assert w == [Executable, "-r", url, command] + a + tail;
    if
      && |v| == 4 + |a| + |tail|
      && v[..4] == [Executable, "-r", url, command]
      && v[4..4 + |a|] == a
      && (Present(identityFile) ==> v[4 + |a|..] == tail)
    {
      assert v[4 + |a|..] == tail;
      assert v == v[..4] + v[4..4 + |a|] + v[4 + |a|..];
    }
    if v == w {
      assert w[..4] == [Executable, "-r", url, command];
      assert w[4..4 + |a|] == a;
      assert w[4 + |a|..] == tail;
    }
  }

  /**
   * A map is the child environment exactly when it has the parent's keys plus
   * the password variable, maps the password variable to the password, and
   * agrees with the parent on every other key.
   */
  lemma ChildEnvShape(e: map<string, string>, environ: map<string, string>, password: string)
    ensures e == ChildEnv(environ, password) <==>
      && e.Keys == environ.Keys + {PasswordVar}
      && e[PasswordVar] == password
      && forall k :: k in environ && k != PasswordVar ==> e[k] == environ[k]
  {
    var c := ChildEnv(environ, password);
    if
      && e.Keys == environ.Keys + {PasswordVar}
      && e[PasswordVar] == password
      && forall k :: k in environ && k != PasswordVar ==> e[k] == environ[k]
    {
      assert e.Keys == c.Keys;
      forall k | k in e ensures e[k] == c[k] {
        if k != PasswordVar {
          assert k in environ;
        }
      }
    }
  }

  /**
   * Runs the engine once: `restic -r <url> <command> [args...]`, followed by the
   * identity option when an identity file is set, with the password in the
   * environment. Returns the invocation and, for a non-zero exit status, the
   * error carrying that status.
   */
  method Restic(url: string, password: string, command: string, args: Option<seq<string>>, identityFile: Option<string>,
                environ: map<string, string>, engine: Oracle, history: seq<Invocation>)
    returns (call: Invocation, failure: Option<ResticError>)
    ensures call.argv == ArgVector(url, command, args, identityFile)
    ensures call.env == ChildEnv(environ, password)
    ensures failure.Some? <==> engine(history, call) != 0
    ensures failure.Some? ==> failure.value == ResticError(command, engine(history, call))
  {
    var extra := if args.None? then [] else args.value;
    var cmd := [Executable, "-r", url, command] + extra;
    var env := environ;
    env := env[PasswordVar := password];
    if Present(identityFile) {
      cmd := cmd + ["-o", IdentityOption(identityFile.value)];
    }
    call := Invocation(cmd, env);
    var code := engine(history, call);
    if code != 0 {
      failure := Some(ResticError(command, code));
    } else {
      failure := None;
    }
  }
}
