# backup.py in Dafny

`backup.py` drives the `restic` backup engine over a list of configured
repositories. This project models its core:

- **Engine invocation** (`engine.dfy`, module `Engine`). It covers the module-level
  `restic` function. It builds the command vector `restic -r <url> <command> [args...]`,
  then `-o sftp.args=-i <file>` when an identity file is set. It copies the parent
  environment with `RESTIC_PASSWORD` overridden, runs the engine, and turns a non-zero
  exit status into a `ResticError`. The engine process is an `Oracle`: given the
  invocations made before in the same batch and the new invocation, it yields the
  exit status. Through that history, a later `check` can answer differently after an
  `init`.
- **Repositories** (`repository.dfy`, module `Repositories`). It covers the `Repository`
  record and its location and password resolution (`get_url`, `get_password`). It also
  covers its engine operations `_restic`, `initialize` and `check`. A repository is never
  changed after construction, so it is a datatype. Optional fields are
  `Option<string>`. Python truthiness, where `None` and `""` both count as missing, is
  the predicate `Results.Present`.
- **Batch commands** (`commands.dfy`, module `Commands`). It covers `cmd_initialize` and
  `cmd_backup`. Both are imperative loops, modelled as methods that return the trace of
  engine invocations they made, and each is proved against a specification function.
  A `RepositoryError` from `get_url` is raised inside `_restic` before the engine is
  started. The commands catch only `ResticError`, so a `RepositoryError` ends the
  command; the model keeps this.

The code does not do the following, and neither does the model:

- `cmd_backup` never issues a `backup` engine command.
- `cmd_backup` does not skip a repository whose retry failed; the error ends the command.
- There is no grouping of jobs by host and no `--host` label.
- There is no secret lookup from environment variables.
- A location error is not isolated per repository; it ends the batch.

## Model

| member | source | states |
|---|---|---|
| Engine.ArgVectorShape | backup.py:24-33 | A vector is the command vector exactly when it has length 4 + \|args\| + (2 with an identity file, else 0), starts with `restic -r url command`, continues with the extra arguments (none when `args` is `None`), and ends with `-o sftp.args=-i <file>` when an identity file is set |
| Engine.ChildEnvShape | backup.py:29-30 | A map is the child environment exactly when its keys are the parent's plus `RESTIC_PASSWORD`, `RESTIC_PASSWORD` maps to the password, and every other key keeps the parent's value |
| Engine.Restic | backup.py:17-44 | The invocation's vector is the command vector and its environment the child environment; a `ResticError` is raised exactly when the engine's exit status is non-zero, and it carries the sub-command and that status |
| Repositories.GetPassword | backup.py:67-68 | The password is never empty: it is the stored password when that is present, and "123" when it is `None` or empty |
| Repositories.GetUrl | backup.py:70-85 | A location is produced exactly when the path is present and the method is "local", or "sftp" with a host present. Each of the four `RepositoryError`s is raised exactly under its own condition. A local location is the path. An sftp location is `sftp:` + (`user@` when a user is present) + host + `:` + path |
| Repositories.SftpUrlRoundTrip | backup.py:75-83 | When user and host contain neither `:` nor `@`, the sftp location splits back into exactly the user (absent when empty), the host and the path |
| Repositories.Attempt | backup.py:87-88 | A repository operation makes no engine call when the location does not resolve, and raises that `RepositoryError`. Otherwise it makes exactly one call, with the resolved location, the repository password, the identity file and no extra arguments. It raises `ResticError(command, status)` exactly when that call's status is non-zero |
| Repositories.RepositoryRestic | backup.py:87-88 | `_restic` makes the calls and raises what `Attempt` describes, whatever `args` it is given |
| Repositories.Initialize | backup.py:90-92 | `initialize` is `Attempt` with the `init` sub-command |
| Repositories.Check | backup.py:94-96 | `check` is `Attempt` with the `check` sub-command |
| Commands.PassedMeaning | backup.py:136-141 | Entry k of the outcome list is true exactly when the k-th `init` call, made after the calls before it, exited with status zero |
| Commands.CmdInitialize | backup.py:133-141 | `init` is called exactly once per repository and in order, with that repository's invocation. Calls stop at the first repository whose location does not resolve; that error ends the command and no later repository is touched. The command completes exactly when every location resolves. Then `success` holds, in input order, the names whose `init` exited with zero, and `fails` the others |
| Commands.SelectPartition | backup.py:134-141 | The success and failure selections together hold every name exactly once (as multisets), and their lengths add up to the number of repositories |
| Commands.SelectUniform | backup.py:134-141 | When every outcome is the same, one list holds all the names in order and the other is empty |
| Commands.SelectSingleFailure | backup.py:134-141 | When only the repository at one position fails, `fails` is that one name and `success` is all the other names in order |
| Commands.InitializeReportPartition | backup.py:133-141 | For the lists `cmd_initialize` reports, the names are split with nothing lost or duplicated, and a single failure lands alone in `fails` |
| Commands.BackupRepo | backup.py:125-131 | For one repository: no call when the location does not resolve, and that error escapes. Otherwise `check` comes first and there are at most three calls. `init` is second exactly when the first `check` failed. A third call, a `check`, follows exactly when `init` succeeded. The step raises exactly when its last call failed, with that call's sub-command and status |
| Commands.BackupOne | backup.py:126-131 | The try/except body (check; on `ResticError` initialize, then check, both uncaught) makes exactly the calls and raises exactly what `BackupRepo` describes |
| Commands.CmdBackup | backup.py:124-131 | The trace and the escaping error are those of running the loop body over the repositories in order, each after the calls before it, stopping at the first error |
| Commands.BackupFromWellFormed | backup.py:124-131 | Continuing the loop from a well-formed prefix run gives a well-formed run over the whole list |
| Commands.BackupRunWellFormed | backup.py:124-131 | For any loop body, and so for `cmd_backup`'s, the run's k-th step is the body for the k-th repository after the earlier steps' calls. The trace is the concatenation of those calls. Only the last step raised, so no later repository is processed. An error that escapes was raised by a processed repository, so the first repository of a non-empty list is always processed. Every repository is processed when nothing raised |
| Commands.BackupIssuesNoBackup | backup.py:124-131 | Every engine invocation `cmd_backup` makes is a `check` or an `init`; no backup is ever issued |

## Left out

- Starting the engine process (`subprocess.run`) is the `Oracle` parameter. A missing executable (`FileNotFoundError`) is not modelled.
- Console output (`print`) is not modelled: the "Running command" line, the retry notice and `cmd_initialize`'s two summary lines.
- The message texts of `ResticError` and `RepositoryError` are not modelled. Each error value carries what the message is built from: the sub-command and exit status, or the error kind with the repository name or access method.
- The `output` and `error` fields of `ResticError` are not represented. They are always `None`, because output is not captured.
- `read_config` only opens a TOML file and prints it. It builds no records, so it is left out. The top-level `read_config("backup.toml")` call and the commented-out command dispatch are left out with it.
- `cmd_health_check` has an empty body and is not modelled.
- `Operation` is a datatype that `CmdBackup` accepts and never reads, as in the source.
- The constructor default `method="local"` is not modelled: every `Repository` value names its access method, held in the field `access` because `method` is a Dafny keyword.
- The parent environment (`os.environ`) is the parameter `environ`.
