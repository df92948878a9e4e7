/** Names shared by the whole model. */
module Common {

  datatype Option<+T> = None | Some(value: T)

  /** The six CR kinds; `Unknown` is any other text in a `kind` field. */
  datatype Kind = HTTPProbe | DNSProbe | TCPProbe | K6Test | PlaywrightTest | Heartbeat | Unknown(text: string)

  /** A namespaced name. */
  datatype Name = Name(ns: string, name: string)
}
