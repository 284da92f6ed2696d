/** The ways a compareMaps run ends early, and the result type that carries them. */
module Errors {

  /** Why a run stops before it writes its outputs. */
  datatype RunError =
    | MissingMap(path: string)       // an input raster path does not exist
    | BadBoundaryMap(value: int)     // the boundarymap selector is neither 1 nor 2
    | UnboundName(name: string)      // Python raises NameError on an unbound local
    | BadExitCall(argCount: int)     // sys.exit called with more arguments than it accepts: TypeError

  datatype Result<+T> = Success(value: T) | Failure(error: RunError)
}
