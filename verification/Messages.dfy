/** What travels on trustd's socket. */
module Messages {
  import opened Basics
  import opened Store

  datatype Health = HealthOk | Degraded

  /** A root in a reply. A listing leaves its certificate out. */
  datatype Root = Root(fingerprint: string, subject: string, purposes: seq<string>, source: Source,
                       name: Option<string>, notAfter: int, der: Der)

  datatype Status = Status(generation: nat, health: Health, message: Option<string>, shipped: nat, added: nat,
                           distrusted: nat, skipped: nat, effective: nat, compatMode: dword, rendered: seq<string>)

  datatype Request =
    | Roots(withDer: bool, purpose: Option<string>)
    | Subscribe(withDer: bool)
    | GetStatus
    | Reload

  datatype Reply =
    | Done
    | Refused(message: string)
    | RootsChunk(generation: nat, roots: seq<Root>, more: bool)
    | StatusReply(status: Status)

  /** A whole root set at one generation. */
  datatype Snapshot = Snapshot(generation: nat, roots: seq<Root>)
}
