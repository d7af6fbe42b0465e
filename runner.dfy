/**
 * The result of one run of the watched command. Spawning the process,
 * waiting for it, capturing its output and decoding it as text are not
 * modelled: a run's outcome is an input to the rest of the model.
 */
module Runner {

  /** How the process ended: an exit code, or a terminating signal. */
  datatype ExitStatus = Exited(code: int) | Signalled(signal: int)

  /** An I/O failure while spawning or waiting for the process. */
  datatype IoError = IoError(description: string)

  /** Captured output of a finished process. */
  datatype CmdOutput = CmdOutput(status: ExitStatus, stdout: string, stderr: string)

  /** `Result<CmdOutput, io::Error>`: either the captured output or the failure. */
  datatype CmdResult = Ok(output: CmdOutput) | Err(error: IoError)
}
