/**
  The tool's exception classes (`exceptions.py`) and the built-in `ValueError`
  the core can raise, as a class hierarchy with Python's `isinstance` test, and
  the result of an operation that either returns or raises.
 */
module Errors {
  import opened Wrappers

  datatype ErrorClass =
    | Exception
    | K3sDeployErrorClass
    | ProxmoxErrorClass
    | PveshCommandErrorClass
    | NodeDiscoveryErrorClass
    | ConfigurationErrorClass
    | ValueErrorClass

  /** Distance from `Exception` in the hierarchy. */
  function Depth(c: ErrorClass): nat {
    match c
    case Exception => 0
    case K3sDeployErrorClass => 1
    case ValueErrorClass => 1
    case PveshCommandErrorClass => 3
    case _ => 2
  }

  /** The base class each class is declared with. */
  function Parent(c: ErrorClass): (p: Option<ErrorClass>)
    ensures p.Some? ==> Depth(p.value) < Depth(c)
  {
    match c
    case Exception => None
    case K3sDeployErrorClass => Some(Exception)
    case ProxmoxErrorClass => Some(K3sDeployErrorClass)
    case PveshCommandErrorClass => Some(ProxmoxErrorClass)
    case NodeDiscoveryErrorClass => Some(K3sDeployErrorClass)
    case ConfigurationErrorClass => Some(K3sDeployErrorClass)
    case ValueErrorClass => Some(Exception)
  }

  /** `issubclass(c, d)`: `d` is `c` or one of its ancestors. */
  predicate IsSubclass(c: ErrorClass, d: ErrorClass)
    decreases Depth(c)
  {
    c == d || (Parent(c).Some? && IsSubclass(Parent(c).value, d))
  }

  /** A raised exception. */
  datatype Error =
    | ProxmoxError(message: string)
    | PveshCommandError(message: string, stderr: string, stdout: string)
    | NodeDiscoveryError(message: string)
    | ConfigurationError(message: string)
    | ValueError(message: string)
  {
    function Class(): ErrorClass {
      match this
      case ProxmoxError(_) => ProxmoxErrorClass
      case PveshCommandError(_, _, _) => PveshCommandErrorClass
      case NodeDiscoveryError(_) => NodeDiscoveryErrorClass
      case ConfigurationError(_) => ConfigurationErrorClass
      case ValueError(_) => ValueErrorClass
    }
  }

  /** `isinstance(e, c)`: the test an `except c:` clause makes. */
  predicate IsInstance(e: Error, c: ErrorClass) {
    IsSubclass(e.Class(), c)
  }

  /**
    Which handlers catch which errors: `except ProxmoxError` catches exactly
    the two Proxmox errors, so discovery and configuration errors and
    `ValueError` pass through it; `except K3sDeployError` catches every error
    of the tool's own but not `ValueError`.
   */
  lemma HandlerCoverage(e: Error)
    ensures IsInstance(e, ProxmoxErrorClass) <==> e.ProxmoxError? || e.PveshCommandError?
    ensures IsInstance(e, K3sDeployErrorClass) <==> !e.ValueError?
    ensures IsInstance(e, Exception)
  {
  }

  /** `str(e)`: the message, and for a pvesh failure its non-empty captured output. */
  function Str(e: Error): (s: string)
    ensures !e.PveshCommandError? ==> s == e.message
    ensures e.PveshCommandError? && e.stdout == "" && e.stderr == "" ==> s == e.message
    ensures |s| >= |e.message| && s[..|e.message|] == e.message
    ensures e.PveshCommandError? && e.stdout != "" ==>
              s[|e.message|..] == "\n  STDOUT: " + e.stdout + (if e.stderr != "" then "\n  STDERR: " + e.stderr else "")
    ensures e.PveshCommandError? && e.stdout == "" && e.stderr != "" ==>
              s[|e.message|..] == "\n  STDERR: " + e.stderr
  {
    match e
    case PveshCommandError(message, stderr, stdout) =>
      var details := message;
      var details := if stdout != "" then details + "\n  STDOUT: " + stdout else details;
      if stderr != "" then details + "\n  STDERR: " + stderr else details
    case _ => e.message
  }

  /** The outcome of a Python call: the value it returned or the error it raised. */
  datatype Result<+T> = Ok(value: T) | Raise(error: Error)
}
