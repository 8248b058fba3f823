/** What the providers see of an HTTP exchange. */
module Web {
  /** An HTTP response: its status code and its text. */
  datatype Response = Response(status: int, text: string)
}
