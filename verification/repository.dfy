/** The stock records and the repository behind the service layer, whose
    methods forward one to one: `findAll`, `findById`, `save`, `deleteById`.
    The table is a map from id to record; ids come from an identity
    generator that starts at 1 and never hands out the same id twice. */
module Repository {
  import opened Text

  newtype byte = x: int | 0 <= x < 256

  /** A Java `double`, stored and returned without arithmetic. */
  type Price = real

  /** One stock record: the image bytes, the price and the detail text.
      Its id is the key it is stored under. */
  datatype Stock = Stock(image: seq<byte>, price: Price, detail: string)

  /** The table, and the id the generator hands out next. */
  datatype Store = Store(records: map<int, Stock>, nextId: int)

  /** Every stored id was handed out by the generator. */
  ghost predicate Valid(st: Store) {
    1 <= st.nextId && forall id :: id in st.records ==> 1 <= id < st.nextId
  }

  /** The empty table before the first insert. */
  function Empty(): (st: Store)
    ensures Valid(st) && |st.records| == 0
  {
    Store(map[], 1)
  }

  /** `order` lists every stored id exactly once, in the order the table
      returns its rows. */
  ghost predicate Enumerates(order: seq<int>, st: Store) {
    && (forall i, j :: 0 <= i < j < |order| ==> order[i] != order[j])
    && (forall id :: id in order <==> id in st.records)
  }

  /** `findById`: the record stored under `id`, or None. */
  function FindById(st: Store, id: int): (r: Option<Stock>)
    ensures r.Some? <==> id in st.records
    ensures r.Some? ==> r.value == st.records[id]
  {
    if id in st.records then Some(st.records[id]) else None
  }

  /** `save` of a new record: it is stored under a fresh id, which is
      returned, and the table grows by exactly that one row. */
  function Insert(st: Store, stock: Stock): (r: (Store, int))
    requires Valid(st)
    ensures var (st', id) := r;
      && Valid(st') && id !in st.records && st'.records.Keys == st.records.Keys + {id}
      && |st'.records| == |st.records| + 1
      && FindById(st', id) == Some(stock)
      && forall other :: other != id ==> FindById(st', other) == FindById(st, other)
  {
    var id := st.nextId;
    (Store(st.records[id := stock], id + 1), id)
  }

  /** `save` of a record already stored under `id`: its row is overwritten
      and no other row changes. */
  function Replace(st: Store, id: int, stock: Stock): (r: Store)
    requires id in st.records
    ensures r.records.Keys == st.records.Keys && r.nextId == st.nextId
    ensures Valid(st) ==> Valid(r)
    ensures FindById(r, id) == Some(stock)
    ensures forall other :: other != id ==> FindById(r, other) == FindById(st, other)
  {
    Store(st.records[id := stock], st.nextId)
  }

  /** `deleteById`: the row under `id` is gone, whether or not there was
      one, and no other row changes. */
  function DeleteById(st: Store, id: int): (r: Store)
    ensures FindById(r, id) == None && r.nextId == st.nextId
    ensures r.records.Keys == st.records.Keys - {id}
    ensures Valid(st) ==> Valid(r)
    ensures forall other :: other != id ==> FindById(r, other) == FindById(st, other)
  {
    Store(st.records - {id}, st.nextId)
  }

  /** Deleting twice is deleting once. */
  lemma DeleteIdempotent(st: Store, id: int)
    ensures DeleteById(DeleteById(st, id), id) == DeleteById(st, id)
  {
    assert DeleteById(DeleteById(st, id), id).records == DeleteById(st, id).records;
  }

  /** Deleting a record just inserted restores the table's rows. */
  lemma InsertThenDelete(st: Store, stock: Stock)
    requires Valid(st)
    ensures var (st', id) := Insert(st, stock);
      DeleteById(st', id).records == st.records
  {
    var (st', id) := Insert(st, stock);
    assert DeleteById(st', id).records == st.records;
  }
}
