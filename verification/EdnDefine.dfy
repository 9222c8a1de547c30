/** What the components share: optional values, the codes of EDN_CODE and the descriptor of events that have none. */
module EdnDefine {

  datatype Option<+T> = None | Some(value: T)

  const EDN_OK := 0
  const EDN_ERR_PARAMS_INVALID := -1
  const EDN_ERR_SYS_ERROR := -4
  const EDN_ERR_BUFFER_NOT_ENOUGH := -5
  const EDN_ERROR_CONNECT_UNAVAILABLE := -6

  const INVALID_FD := -1
}
