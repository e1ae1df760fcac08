/** The result codes of include/xt/result.h that the modelled operations return. */
module Results {
  datatype XTResult =
    | XT_SUCCESS
    | XT_INVALID_PARAMETER
    | XT_OUT_OF_MEMORY
    | XT_OUT_OF_BOUNDARY
    | XT_NOT_FOUND
    | XT_END_OF_FILE
    | XT_WOULD_BLOCK
    | XT_BROKEN_PIPE
}
