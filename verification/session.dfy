/** Sequences of requests against one table, starting from any table the
    repository can be in: what each request leaves behind, and what holds
    after any number of them. */
module Session {
  import opened Text
  import opened Repository
  import opened StockController

  /** One call of a handler, with its arguments. */
  datatype Request =
    | ListAll
    | Get(id: int)
    | Add(file: MultipartFile, price: Price, detail: string)
    | Update(id: int, upload: Option<MultipartFile>, price: Price, detail: string)
    | Delete(id: int)

  /** The table a request leaves; the two reads leave it as it was. */
  function After(st: Store, req: Request): (st': Store)
    requires Valid(st)
    ensures Valid(st') && st.nextId <= st'.nextId
    ensures (req.ListAll? || req.Get?) ==> st' == st
  {
    match req
    case ListAll => st
    case Get(_) => st
    case Add(file, price, detail) => AddStock(st, file, price, detail).store
    case Update(id, file, price, detail) => UpdateStock(st, id, file, price, detail).store
    case Delete(id) => DeleteStock(st, id).store
  }

  /** The table after the requests, served first to last. */
  function Run(st: Store, reqs: seq<Request>): (st': Store)
    requires Valid(st)
    decreases |reqs|
    ensures Valid(st') && st.nextId <= st'.nextId
  {
    if |reqs| == 0 then st else Run(After(st, reqs[0]), reqs[1..])
  }

  /** An id that was handed out and is no longer stored is never stored
      again: creates always take a new id, and updates need the id present. */
  lemma {:induction false} IdsNeverReused(st: Store, reqs: seq<Request>, id: int)
    requires Valid(st) && id < st.nextId && id !in st.records
    decreases |reqs|
    ensures id !in Run(st, reqs).records
  {
    if |reqs| > 0 {
      var st1 := After(st, reqs[0]);
      assert id < st1.nextId && id !in st1.records;
      IdsNeverReused(st1, reqs[1..], id);
    }
  }

  /** A deleted stock stays gone: once deleted, whatever requests follow, a
      get of its id is 404. */
  lemma {:induction false} DeletedStaysGone(st: Store, id: int, reqs: seq<Request>, encode: seq<byte> -> string)
    requires Valid(st) && id < st.nextId
    ensures GetStockById(Run(st, [Delete(id)] + reqs), id, encode) == Response(NotFoundStatus, NoBody)
  {
    var all := [Delete(id)] + reqs;
    assert all[0] == Delete(id) && all[1..] == reqs;
    IdsNeverReused(DeleteStock(st, id).store, reqs, id);
  }

  /** Reads change nothing: serving only lists and gets leaves the table as
      it was. */
  lemma {:induction false} ReadsChangeNothing(st: Store, reqs: seq<Request>)
    requires Valid(st)
    requires forall i :: 0 <= i < |reqs| ==> reqs[i].ListAll? || reqs[i].Get?
    decreases |reqs|
    ensures Run(st, reqs) == st
  {
    if |reqs| > 0 {
      ReadsChangeNothing(st, reqs[1..]);
    }
  }

  /** Starting from the empty table, every state reached keeps the
      repository's invariant, and each id stored was handed out. */
  lemma Reachable(reqs: seq<Request>)
    ensures Valid(Run(Empty(), reqs))
  {
  }
}
