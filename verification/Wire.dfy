/**
  The messages as MessagePack values: what is written for each request and reply, and what is read back from any map
  that says the same.
 */
module Wire {
  import opened Basics
  import opened Store
  import opened Messages

  /** One MessagePack header or scalar. A map or array holds the values that follow it. */
  datatype Token =
    | NilToken
    | BoolToken(b: bool)
    | UintToken(n: nat)
    | IntToken(i: int)
    | StrToken(s: string)
    | BinToken(bytes: seq<byte>)
    | ArrayToken(count: nat)
    | MapToken(count: nat)

  datatype WireError = Encoding | Missing(key: string) | Duplicate(key: string) | UnknownQuery(query: string)
    | TooLarge(size: nat)

  /** A value read, and the tokens after it. */
  type Read<T> = Result<(T, seq<Token>), WireError>

  // ---------------------------------------------------------------- readers

  function ReadMap(ts: seq<Token>): Read<nat> {
    if ts != [] && ts[0].MapToken? then Ok((ts[0].count, ts[1..])) else Err(Encoding)
  }

  function ReadArray(ts: seq<Token>): Read<nat> {
    if ts != [] && ts[0].ArrayToken? then Ok((ts[0].count, ts[1..])) else Err(Encoding)
  }

  function ReadStr(ts: seq<Token>): Read<string> {
    if ts != [] && ts[0].StrToken? then Ok((ts[0].s, ts[1..])) else Err(Encoding)
  }

  /** What follows the next `n` values, if there are so many. */
  function Skip(ts: seq<Token>, n: nat): Option<seq<Token>> {
    if n == 0 then Some(ts)
    else if ts == [] then None
    else match ts[0]
      case ArrayToken(count) => Skip(ts[1..], n - 1 + count)
      case MapToken(count) => Skip(ts[1..], n - 1 + 2 * count)
      case _ => Skip(ts[1..], n - 1)
  }

  function ReadStrs(ts: seq<Token>, n: nat): Read<seq<string>> {
    if n == 0 then Ok(([], ts))
    else match ReadStr(ts)
      case Err(e) => Err(e)
      case Ok((first, others)) => match ReadStrs(others, n - 1)
        case Err(e) => Err(e)
        case Ok((strs, after)) => Ok(([first] + strs, after))
  }

  /** A list of strings. A count past what is left of the message is refused before anything is read. */
  function StrList(ts: seq<Token>): Read<seq<string>> {
    match ReadArray(ts)
    case Err(e) => Err(e)
    case Ok((n, others)) => if n > |others| then Err(TooLarge(n)) else ReadStrs(others, n)
  }

  function Prefixed(before: seq<string>, after: Read<seq<string>>): Read<seq<string>> {
    if after.Ok? then Ok((before + after.value.0, after.value.1)) else after
  }

  lemma PrefixedStep(before: seq<string>, first: string, after: Read<seq<string>>)
    ensures Prefixed(before, Prefixed([first], after)) == Prefixed(before + [first], after)
  {
    if after.Ok? {
      assert before + ([first] + after.value.0) == before + [first] + after.value.0;
    }
  }

  lemma PrefixedEmpty(after: Read<seq<string>>)
    ensures Prefixed([], after) == after
  {
    if after.Ok? {
      assert [] + after.value.0 == after.value.0;
    }
  }

  method ReadStrList(ts: seq<Token>) returns (r: Read<seq<string>>)
    ensures r == StrList(ts)
  {
    var header := ReadArray(ts);
    if header.Err? {
      return Err(header.error);
    }
    var (n, others) := header.value;
    if n > |others| {
      return Err(TooLarge(n));
    }
    var out: seq<string> := [];
    PrefixedEmpty(ReadStrs(others, n));
    for i := 0 to n
      invariant ReadStrs(header.value.1, n) == Prefixed(out, ReadStrs(others, n - i))
    {
      var next := ReadStr(others);
      if next.Err? {
        return Err(next.error);
      }
      PrefixedStep(out, next.value.0, ReadStrs(next.value.1, n - i - 1));
      out := out + [next.value.0];
      others := next.value.1;
    }
    assert out + [] == out;
    r := Ok((out, others));
  }

  /** How a field's value is read. */
  datatype Kind = KBool | KStr | KOptStr | KUint | KInt | KBin | KStrs | KRoots | KUnknown

  datatype Value =
    | VBool(b: bool)
    | VStr(s: string)
    | VOptStr(o: Option<string>)
    | VUint(n: nat)
    | VInt(i: int)
    | VBin(bytes: seq<byte>)
    | VStrs(strs: seq<string>)
    | VRoots(roots: seq<Root>)
    | VSkipped

  /** A field whose value is a single token. */
  function ReadToken(kind: Kind, t: Token): Option<Value> {
    match (kind, t)
    case (KBool, BoolToken(b)) => Some(VBool(b))
    case (KStr, StrToken(s)) => Some(VStr(s))
    case (KOptStr, NilToken) => Some(VOptStr(None))
    case (KOptStr, StrToken(s)) => Some(VOptStr(Some(s)))
    case (KUint, UintToken(n)) => Some(VUint(n))
    case (KInt, IntToken(i)) => Some(VInt(i))
    case (KBin, BinToken(bytes)) => Some(VBin(bytes))
    case _ => None
  }

  function ReadScalar(kind: Kind, ts: seq<Token>): Read<Value> {
    match kind
    case KStrs => (match StrList(ts) case Ok((strs, after)) => Ok((VStrs(strs), after)) case Err(e) => Err(e))
    case KUnknown => (match Skip(ts, 1) case Some(after) => Ok((VSkipped, after)) case None => Err(Encoding))
    case _ =>
      if ts == [] || ReadToken(kind, ts[0]).None? then Err(Encoding)
      else Ok((ReadToken(kind, ts[0]).value, ts[1..]))
  }

  // ---------------------------------------------------------------- maps

  type Slots = map<string, Value>

  function Put(slots: Slots, key: string, value: Value): Slots {
    if value.VSkipped? then slots else slots[key := value]
  }

  /** Walk `n` fields of a map. A key seen before is refused; an unknown one is the reader's to skip. */
  function Fields(read: (string, seq<Token>) -> Read<Value>, n: nat, seen: seq<string>, slots: Slots, ts: seq<Token>)
    : Read<Slots>
    decreases n
  {
    if n == 0 then Ok((slots, ts))
    else match ReadStr(ts)
      case Err(e) => Err(e)
      case Ok((key, after)) =>
        if key in seen then Err(Duplicate(key))
        else match read(key, after)
          case Err(e) => Err(e)
          case Ok((value, others)) => Fields(read, n - 1, seen + [key], Put(slots, key, value), others)
  }

  function ReadFields(read: (string, seq<Token>) -> Read<Value>, ts: seq<Token>): Read<Slots> {
    match ReadMap(ts)
    case Err(e) => Err(e)
    case Ok((n, others)) => Fields(read, n, [], map[], others)
  }

  method ForEachField(read: (string, seq<Token>) -> Read<Value>, ts: seq<Token>) returns (r: Read<Slots>)
    ensures r == ReadFields(read, ts)
  {
    var header := ReadMap(ts);
    if header.Err? {
      return Err(header.error);
    }
    var (n, others) := header.value;
    var seen: seq<string> := [];
    var slots: Slots := map[];
    for i := 0 to n
      invariant Fields(read, n - i, seen, slots, others) == ReadFields(read, ts)
    {
      var key := ReadStr(others);
      if key.Err? {
        return Err(key.error);
      }
      if key.value.0 in seen {
        return Err(Duplicate(key.value.0));
      }
      var value := read(key.value.0, key.value.1);
      if value.Err? {
        return Err(value.error);
      }
      seen := seen + [key.value.0];
      slots := Put(slots, key.value.0, value.value.0);
      others := value.value.1;
    }
    r := Ok((slots, others));
  }

  // ---------------------------------------------------------------- roots

  function RootKind(key: string): Kind {
    if key == "fingerprint" || key == "subject" || key == "source" then KStr
    else if key == "purposes" then KStrs
    else if key == "name" then KOptStr
    else if key == "not_after" then KInt
    else if key == "der" then KBin
    else KUnknown
  }

  function RootValue(key: string, ts: seq<Token>): Read<Value> {
    ReadScalar(RootKind(key), ts)
  }

  function SourceName(source: Source): string {
    match source case Shipped => "shipped" case Added => "added"
  }

  /** An unknown source reads as a shipped one. */
  function ParseSource(s: string): Source {
    if s == "added" then Added else Shipped
  }

  function StrAt(slots: Slots, key: string): string {
    if key in slots && slots[key].VStr? then slots[key].s else ""
  }

  function BuildRoot(slots: Slots): Root {
    Root(StrAt(slots, "fingerprint"),
         StrAt(slots, "subject"),
         StrsAt(slots, "purposes"),
         ParseSource(StrAt(slots, "source")),
         OptStrAt(slots, "name"),
         if "not_after" in slots && slots["not_after"].VInt? then slots["not_after"].i else 0,
         if "der" in slots && slots["der"].VBin? then slots["der"].bytes else [])
  }

  function DecodeRoot(ts: seq<Token>): Read<Root> {
    match ReadFields(RootValue, ts)
    case Err(e) => Err(e)
    case Ok((slots, after)) => Ok((BuildRoot(slots), after))
  }

  function ReadRoots(ts: seq<Token>, n: nat): Read<seq<Root>>
    decreases n
  {
    if n == 0 then Ok(([], ts))
    else match DecodeRoot(ts)
      case Err(e) => Err(e)
      case Ok((first, others)) => match ReadRoots(others, n - 1)
        case Err(e) => Err(e)
        case Ok((roots, after)) => Ok(([first] + roots, after))
  }

  // ---------------------------------------------------------------- requests

  function RequestKind(key: string): Kind {
    if key == "query" then KStr
    else if key == "with_der" then KBool
    else if key == "purpose" then KOptStr
    else KUnknown
  }

  function RequestValue(key: string, ts: seq<Token>): Read<Value> {
    ReadScalar(RequestKind(key), ts)
  }

  function BoolAt(slots: Slots, key: string): bool {
    key in slots && slots[key].VBool? && slots[key].b
  }

  function OptStrAt(slots: Slots, key: string): Option<string> {
    if key in slots && slots[key].VOptStr? then slots[key].o else None
  }

  function BuildRequest(slots: Slots): Result<Request, WireError> {
    if "query" !in slots then Err(Missing("query"))
    else
      var query := StrAt(slots, "query");
      if query == "roots" then Ok(Roots(BoolAt(slots, "with_der"), OptStrAt(slots, "purpose")))
      else if query == "subscribe" then Ok(Subscribe(BoolAt(slots, "with_der")))
      else if query == "status" then Ok(GetStatus)
      else if query == "reload" then Ok(Reload)
      else Err(UnknownQuery(query))
  }

  function DecodeRequest(ts: seq<Token>): Result<Request, WireError> {
    match ReadFields(RequestValue, ts)
    case Err(e) => Err(e)
    case Ok((slots, _)) => BuildRequest(slots)
  }

  // ---------------------------------------------------------------- replies

  function ReplyKind(key: string): Kind {
    if key == "ok" || key == "more" then KBool
    else if key == "error" || key == "kind" || key == "health" then KStr
    else if key == "message" then KOptStr
    else if key == "rendered" then KStrs
    else if key == "roots" then KRoots
    else if key == "generation" || key == "shipped" || key == "added" || key == "distrusted" || key == "skipped"
            || key == "effective" || key == "compat_mode" then KUint
    else KUnknown
  }

  function ReplyValue(key: string, ts: seq<Token>): Read<Value> {
    if ReplyKind(key).KRoots? then
      match ReadArray(ts)
      case Err(e) => Err(e)
      case Ok((n, others)) => match ReadRoots(others, n)
        case Err(e) => Err(e)
        case Ok((roots, after)) => Ok((VRoots(roots), after))
    else ReadScalar(ReplyKind(key), ts)
  }

  function HealthName(health: Health): string {
    match health case HealthOk => "ok" case Degraded => "degraded"
  }

  /** An unknown health reads as a good one. */
  function ParseHealth(s: string): Health {
    if s == "degraded" then Degraded else HealthOk
  }

  function UintAt(slots: Slots, key: string): nat {
    if key in slots && slots[key].VUint? then slots[key].n else 0
  }

  function StrsAt(slots: Slots, key: string): seq<string> {
    if key in slots && slots[key].VStrs? then slots[key].strs else []
  }

  function RootsAt(slots: Slots, key: string): seq<Root> {
    if key in slots && slots[key].VRoots? then slots[key].roots else []
  }

  function BuildStatus(slots: Slots): Status {
    Status(UintAt(slots, "generation"), ParseHealth(StrAt(slots, "health")), OptStrAt(slots, "message"),
           UintAt(slots, "shipped"), UintAt(slots, "added"), UintAt(slots, "distrusted"), UintAt(slots, "skipped"),
           UintAt(slots, "effective"), UintAt(slots, "compat_mode") % 0x1_0000_0000, StrsAt(slots, "rendered"))
  }

  function BuildReply(slots: Slots): Result<Reply, WireError> {
    if "ok" !in slots then Err(Missing("ok"))
    else if !BoolAt(slots, "ok") then
      Ok(Refused(if "error" in slots then StrAt(slots, "error") else "unspecified error"))
    else if StrAt(slots, "kind") == "roots" then
      Ok(RootsChunk(UintAt(slots, "generation"), RootsAt(slots, "roots"), BoolAt(slots, "more")))
    else if StrAt(slots, "kind") == "status" then Ok(StatusReply(BuildStatus(slots)))
    else Ok(Done)
  }

  function DecodeReply(ts: seq<Token>): Result<Reply, WireError> {
    match ReadFields(ReplyValue, ts)
    case Err(e) => Err(e)
    case Ok((slots, _)) => BuildReply(slots)
  }
}
