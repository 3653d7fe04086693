/** The REST handlers of `/api/stock`: list, get, create, update and delete.
    Each handler takes the table as it was and returns the HTTP response
    together with the table as it is afterwards. */
module StockController {
  import opened Text
  import opened Sanitizer
  import opened Upload
  import opened Repository

  /** An uploaded multipart file: its declared content type and its bytes.
      Its size is the number of bytes, and it is empty when there are none. */
  datatype MultipartFile = MultipartFile(contentType: string, content: seq<byte>)

  const OkStatus: int := 200
  const NoContentStatus: int := 204
  const BadRequestStatus: int := 400
  const NotFoundStatus: int := 404

  const AddedMessage: string := "Stock added successfully"
  const UpdatedMessage: string := "Stock updated successfully"

  /** Every image is served as a JPEG data URI, whatever type it was
      uploaded as. */
  const DataUriPrefix: string := "data:image/jpeg;base64,"

  /** The JSON object sent for one record. */
  datatype View = View(id: int, image: string, price: Price, detail: string)

  /** The response body: none, a message, one record, or a list of them. */
  datatype Body = NoBody | Message(text: string) | Item(view: View) | Items(views: seq<View>)

  datatype Response = Response(status: int, body: Body)

  /** What a handler answers and the table it leaves behind. */
  datatype Exchange = Exchange(response: Response, store: Store)

  /** The upload check applied to a file: the two tests of create at
      `StockController.java:58-63`, repeated by update at lines 78-83. */
  function Check(file: MultipartFile): Verdict {
    Validate(file.contentType, |file.content|)
  }

  /** The record `stock` stored under `id` as sent to the client: id, price
      and detail copied, the image as the data-URI prefix followed by the
      base64 text `encode` makes of the bytes. */
  function Render(id: int, stock: Stock, encode: seq<byte> -> string): (v: View)
    ensures v.id == id && v.price == stock.price && v.detail == stock.detail
    ensures |DataUriPrefix| <= |v.image|
    ensures v.image[..|DataUriPrefix|] == DataUriPrefix
    ensures v.image[|DataUriPrefix|..] == encode(stock.image)
  {
    View(id, DataUriPrefix + encode(stock.image), stock.price, stock.detail)
  }

  /** The records under the ids of `order`, rendered in that order. */
  function RenderAll(st: Store, order: seq<int>, encode: seq<byte> -> string): (vs: seq<View>)
    requires forall id :: id in order ==> id in st.records
    ensures |vs| == |order|
    ensures forall i :: 0 <= i < |vs| ==> vs[i].id == order[i]
    ensures forall i :: 0 <= i < |vs| ==> GetStockById(st, vs[i].id, encode) == Response(OkStatus, Item(vs[i]))
  {
    if |order| == 0 then []
    else [Render(order[0], st.records[order[0]], encode)] + RenderAll(st, order[1..], encode)
  }

  /** `GET /api/stock`: every stored record, in the order the table returns
      them, each exactly once. */
  function GetAllStocks(st: Store, order: seq<int>, encode: seq<byte> -> string): (r: Response)
    requires Enumerates(order, st)
    ensures r.status == OkStatus && r.body.Items?
    ensures |r.body.views| == |st.records|
    ensures forall id :: id in st.records <==> exists i :: 0 <= i < |r.body.views| && r.body.views[i].id == id
    ensures forall i, j :: 0 <= i < j < |r.body.views| ==> r.body.views[i].id != r.body.views[j].id
    ensures forall i :: 0 <= i < |r.body.views| ==>
      GetStockById(st, r.body.views[i].id, encode) == Response(OkStatus, Item(r.body.views[i]))
  {
    var vs := RenderAll(st, order, encode);
    ListedOnce(st, order, vs);
    Response(OkStatus, Items(vs))
  }

  /** Views carrying the ids of an enumeration of the table carry every
      stored id exactly once. */
  lemma ListedOnce(st: Store, order: seq<int>, vs: seq<View>)
    requires Enumerates(order, st)
    requires |vs| == |order| && forall i :: 0 <= i < |vs| ==> vs[i].id == order[i]
    ensures |vs| == |st.records|
    ensures forall id :: id in st.records <==> exists i :: 0 <= i < |vs| && vs[i].id == id
    ensures forall i, j :: 0 <= i < j < |vs| ==> vs[i].id != vs[j].id
  {
    DistinctCount(order, st.records.Keys);
    forall id | id in st.records ensures exists i :: 0 <= i < |vs| && vs[i].id == id {
      var i :| 0 <= i < |order| && order[i] == id;
      assert vs[i].id == id;
    }
  }

  /** `GET /api/stock/{id}`: the record rendered, or 404 with no body. */
  function GetStockById(st: Store, id: int, encode: seq<byte> -> string): (r: Response)
    ensures r.status == OkStatus <==> id in st.records
    ensures id !in st.records ==> r == Response(NotFoundStatus, NoBody)
    ensures id in st.records ==> r.body == Item(Render(id, st.records[id], encode))
  {
    match FindById(st, id)
    case None => Response(NotFoundStatus, NoBody)
    case Some(stock) => Response(OkStatus, Item(Render(id, stock, encode)))
  }

  /** `POST /api/stock`: an image within the size limit is stored as a new
      record holding its bytes, the price and the sanitised detail; any other
      upload is refused with 400 and nothing is stored. */
  function AddStock(st: Store, file: MultipartFile, price: Price, detail: string): (x: Exchange)
    requires Valid(st)
    ensures x.response.status == OkStatus <==> IsImageType(file.contentType) && |file.content| <= MaxSize
    ensures Check(file).Rejected? ==>
      x == Exchange(Response(BadRequestStatus, Message(Check(file).message)), st)
    ensures Check(file).Accepted? ==>
      && x.response == Response(OkStatus, Message(AddedMessage))
      && st.nextId !in st.records
      && x.store.records.Keys == st.records.Keys + {st.nextId}
      && |x.store.records| == |st.records| + 1
      && FindById(x.store, st.nextId) == Some(Stock(file.content, price, Sanitize(detail)))
      && forall other :: other != st.nextId ==> FindById(x.store, other) == FindById(st, other)
    ensures Valid(x.store)
  {
    match Check(file)
    case Rejected(message) => Exchange(Response(BadRequestStatus, Message(message)), st)
    case Accepted =>
      var (st', _) := Insert(st, Stock(file.content, price, Sanitize(detail)));
      Exchange(Response(OkStatus, Message(AddedMessage)), st')
  }

  /** The file of an update replaces the image: it is present and not empty,
      the guard `file != null && !file.isEmpty()` of `StockController.java:77`. */
  predicate ReplacesImage(file: Option<MultipartFile>) {
    file.Some? && |file.value.content| > 0
  }

  /** The image an update leaves: the uploaded bytes when the file replaces
      the image, the stored ones otherwise (`StockController.java:77-86`). */
  function ImageAfter(file: Option<MultipartFile>, stored: Stock): seq<byte> {
    if ReplacesImage(file) then file.value.content else stored.image
  }

  /** `PUT /api/stock/{id}`: an unknown id is 404; a replacement image that
      fails the upload check is 400; otherwise price and sanitised detail are
      overwritten and the image is replaced only when a non-empty file came.
      A refused request stores nothing. */
  function UpdateStock(st: Store, id: int, file: Option<MultipartFile>, price: Price, detail: string): (x: Exchange)
    ensures id !in st.records ==> x == Exchange(Response(NotFoundStatus, NoBody), st)
    ensures id in st.records && ReplacesImage(file) && Check(file.value).Rejected? ==>
      x == Exchange(Response(BadRequestStatus, Message(Check(file.value).message)), st)
    ensures x.response.status == OkStatus <==>
      id in st.records && (ReplacesImage(file) ==> Check(file.value).Accepted?)
    ensures x.response.status == OkStatus ==>
      && x.response.body == Message(UpdatedMessage)
      && x.store.records.Keys == st.records.Keys && x.store.nextId == st.nextId
      && FindById(x.store, id) == Some(Stock(ImageAfter(file, st.records[id]), price, Sanitize(detail)))
      && forall other :: other != id ==> FindById(x.store, other) == FindById(st, other)
    ensures Valid(st) ==> Valid(x.store)
  {
    match FindById(st, id)
    case None => Exchange(Response(NotFoundStatus, NoBody), st)
    case Some(stock) =>
      if ReplacesImage(file) && Check(file.value).Rejected? then
        Exchange(Response(BadRequestStatus, Message(Check(file.value).message)), st)
      else
        var stock' := Stock(ImageAfter(file, stock), price, Sanitize(detail));
        Exchange(Response(OkStatus, Message(UpdatedMessage)), Replace(st, id, stock'))
  }

  /** `DELETE /api/stock/{id}`: the record is removed if there is one, and
      the answer is 204 either way. */
  function DeleteStock(st: Store, id: int): (x: Exchange)
    ensures x.response == Response(NoContentStatus, NoBody)
    ensures x.store.records.Keys == st.records.Keys - {id} && x.store.nextId == st.nextId
    ensures forall other :: other != id ==> FindById(x.store, other) == FindById(st, other)
    ensures Valid(st) ==> Valid(x.store)
  {
    Exchange(Response(NoContentStatus, NoBody), DeleteById(st, id))
  }

  /** A list of distinct ids with the members of a set is as long as the
      set is large. */
  lemma {:induction false} DistinctCount(order: seq<int>, keys: set<int>)
    requires forall i, j :: 0 <= i < j < |order| ==> order[i] != order[j]
    requires forall id :: id in order <==> id in keys
    decreases |order|
    ensures |keys| == |order|
  {
    if |order| == 0 {
      assert keys == {} by {
        forall id | id in keys ensures false {
        }
      }
    } else {
      var rest := order[1..];
      var keys' := keys - {order[0]};
      forall id ensures id in rest <==> id in keys' {
        if id in rest {
          var k :| 0 <= k < |rest| && rest[k] == id;
          assert order[k + 1] == id;
        }
        if id in keys' {
          var k :| 0 <= k < |order| && order[k] == id;
          assert rest[k - 1] == id;
        }
      }
      DistinctCount(rest, keys');
    }
  }

  /** A record just created is served back by id: its bytes as a data URI,
      its price, and its detail as sanitised. */
  lemma GetAfterAdd(st: Store, file: MultipartFile, price: Price, detail: string, encode: seq<byte> -> string)
    requires Valid(st) && Check(file).Accepted?
    ensures GetStockById(AddStock(st, file, price, detail).store, st.nextId, encode)
         == Response(OkStatus, Item(View(st.nextId, DataUriPrefix + encode(file.content), price, Sanitize(detail))))
  {
    var x := AddStock(st, file, price, detail);
    assert x.store.records[st.nextId] == Stock(file.content, price, Sanitize(detail));
  }

  /** Create has no emptiness test: an image-typed file with no bytes is
      stored, with an empty image. */
  lemma AddAcceptsEmptyImage(st: Store, contentType: string, price: Price, detail: string)
    requires Valid(st) && IsImageType(contentType)
    ensures AddStock(st, MultipartFile(contentType, []), price, detail).response
         == Response(OkStatus, Message(AddedMessage))
  {
  }

  /** The content type only gates the upload: two accepted files with the
      same bytes leave the same table and the same answer. */
  lemma ImageIgnoresContentType(st: Store, f1: MultipartFile, f2: MultipartFile, price: Price, detail: string)
    requires Valid(st) && f1.content == f2.content
    requires Check(f1).Accepted? && Check(f2).Accepted?
    ensures AddStock(st, f1, price, detail) == AddStock(st, f2, price, detail)
  {
  }

  /** After a successful update, a get serves the new price, the sanitised
      new detail, and the new image or, without a non-empty file, the old one. */
  lemma GetAfterUpdate(st: Store, id: int, file: Option<MultipartFile>, price: Price, detail: string,
                       encode: seq<byte> -> string)
    requires id in st.records && (ReplacesImage(file) ==> Check(file.value).Accepted?)
    ensures GetStockById(UpdateStock(st, id, file, price, detail).store, id, encode)
         == Response(OkStatus, Item(View(id, DataUriPrefix + encode(ImageAfter(file, st.records[id])), price, Sanitize(detail))))
  {
    var x := UpdateStock(st, id, file, price, detail);
    assert x.store.records[id] == Stock(ImageAfter(file, st.records[id]), price, Sanitize(detail));
  }

  /** An update without a non-empty file serves the same image as before. */
  lemma UpdateWithoutFileKeepsImage(st: Store, id: int, file: Option<MultipartFile>, price: Price, detail: string,
                                    encode: seq<byte> -> string)
    requires id in st.records && !ReplacesImage(file)
    ensures GetStockById(UpdateStock(st, id, file, price, detail).store, id, encode).body.view.image
         == GetStockById(st, id, encode).body.view.image
  {
    GetAfterUpdate(st, id, file, price, detail, encode);
  }

  /** After a delete, a get of that id is 404, whether or not it existed. */
  lemma GetAfterDelete(st: Store, id: int, encode: seq<byte> -> string)
    ensures GetStockById(DeleteStock(st, id).store, id, encode) == Response(NotFoundStatus, NoBody)
  {
  }

  /** Repeating a delete answers the same and leaves the same table. */
  lemma DeleteStockIdempotent(st: Store, id: int)
    ensures DeleteStock(DeleteStock(st, id).store, id) == DeleteStock(st, id)
  {
    DeleteIdempotent(st, id);
  }
}
