/** The status codes the modelled calls return. */
module StatusCodes {
  datatype Status = StatusOk | StatusError | StatusInvalid
}
