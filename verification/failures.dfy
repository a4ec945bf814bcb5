/** Failure values. The source reports every failure as an opaque error report;
    the model keeps only what the dispatcher's behaviour depends on. */
module Failures {
  import opened Containers

  datatype Error =
    | EndpointMissing        // the default endpoint index does not name a backend
    | NotFound(id: ContainerId)  // a backend was asked for an id it does not hold
    | Failed(code: nat)      // any other failure, reported by a backend or an encoder

  datatype Option<+T> = None | Some(value: T)

  datatype Result<+T> = Ok(value: T) | Err(error: Error) {
    /** Forget the success value, keeping the failure. */
    function Drop(): (r: Result<()>)
      ensures r.Ok? <==> this.Ok?
      ensures r.Err? ==> r.error == this.error
    {
      match this
      case Ok(_) => Ok(())
      case Err(e) => Err(e)
    }
  }
}
