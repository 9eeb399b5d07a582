/** The gRPC status codes the service and its clients exchange. */
module Rpc {
  import Base

  datatype Code =
    | OK | Canceled | Unknown | InvalidArgument | DeadlineExceeded | NotFound | AlreadyExists
    | ResourceExhausted | Aborted | Internal | Unavailable

  /** `mapStorageError`, and the status a returned context error is given on the wire. */
  function MapStorageError(e: Base.Error): Code {
    match e.Root()
    case Canceled => Code.Canceled
    case DeadlineExceeded => Code.DeadlineExceeded
    case NotFound => Code.NotFound
    case Capacity => Code.ResourceExhausted
    case AlreadyExists => Code.AlreadyExists
    case Invalid => Code.InvalidArgument
    case _ => Code.Unavailable
  }

  /** Each code has its cause, wrapped or not, and everything else is Unavailable. */
  lemma CodesHaveCauses(e: Base.Error)
    ensures MapStorageError(e) == Code.NotFound <==> e.Is(Base.NotFound)
    ensures MapStorageError(e) == Code.ResourceExhausted <==> e.Is(Base.Capacity)
    ensures MapStorageError(e) == Code.AlreadyExists <==> e.Is(Base.AlreadyExists)
    ensures MapStorageError(e) == Code.InvalidArgument <==> e.Is(Base.Invalid)
    ensures MapStorageError(e) == Code.Canceled <==> e.Is(Base.Canceled)
    ensures MapStorageError(e) == Code.DeadlineExceeded <==> e.Is(Base.DeadlineExceeded)
    ensures e.Is(Base.Unavailable) || e.Is(Base.CircuitOpen) ==> MapStorageError(e) == Code.Unavailable
    ensures MapStorageError(e) != Code.OK && MapStorageError(Base.Wrapped(e)) == MapStorageError(e)
  {
  }
}
