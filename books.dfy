/** The book record and its dictionary form, the shape in which the library
    file stores each book (one JSON object per book, in list order). */
module Books {

  datatype Option<+T> = None | Some(value: T)

  /** The two status labels the menu offers: "available" and "checked out". */
  const Available: string := "В наличии"
  const CheckedOut: string := "Выдана"

  /** One catalogue entry; a book created without a status is available. */
  datatype Book = Book(bookId: string, title: string, author: string, year: string, status: string := Available)

  /** A decoded JSON object: field name to field value. */
  type Record = map<string, string>

  const BookIdKey: string := "book_id"
  const TitleKey: string := "title"
  const AuthorKey: string := "author"
  const YearKey: string := "year"
  const StatusKey: string := "status"

  /** The keyword arguments `Book(**record)` cannot do without. */
  const RequiredKeys: set<string> := {BookIdKey, TitleKey, AuthorKey, YearKey}
  /** Every keyword argument `Book(**record)` accepts. */
  const AllKeys: set<string> := RequiredKeys + {StatusKey}

  /** `getattr(book, key)` for the five field names, None for any other name. */
  function Field(b: Book, key: string): Option<string>
  {
    if key == BookIdKey then Some(b.bookId)
    else if key == TitleKey then Some(b.title)
    else if key == AuthorKey then Some(b.author)
    else if key == YearKey then Some(b.year)
    else if key == StatusKey then Some(b.status)
    else None
  }

  /** `book.__dict__`: one entry per field. */
  function ToRecord(b: Book): (d: Record)
    ensures d.Keys == AllKeys
    ensures FromRecord(d) == Some(b)
  {
    map[BookIdKey := b.bookId, TitleKey := b.title, AuthorKey := b.author,
        YearKey := b.year, StatusKey := b.status]
  }

  /** `Book(**d)`: None where Python raises TypeError, that is, for a missing
      required keyword or an unknown one; a missing status takes the default. */
  function FromRecord(d: Record): (r: Option<Book>)
    ensures r.Some? <==> RequiredKeys <= d.Keys <= AllKeys
    ensures r.Some? ==> forall k :: k in d ==> Field(r.value, k) == Some(d[k])
    ensures r.Some? && StatusKey !in d ==> r.value.status == Available
  {
    if RequiredKeys <= d.Keys && d.Keys <= AllKeys then
      Some(if StatusKey in d
           then Book(d[BookIdKey], d[TitleKey], d[AuthorKey], d[YearKey], d[StatusKey])
           else Book(d[BookIdKey], d[TitleKey], d[AuthorKey], d[YearKey]))
    else None
  }

  /** A record holding exactly the five fields is a book's dictionary. */
  lemma RecordRoundTrip(d: Record)
    requires d.Keys == AllKeys
    ensures FromRecord(d).Some? && ToRecord(FromRecord(d).value) == d
  {
  }

  /** A record Book(**d) accepts and that names its status holds exactly the five fields. */
  lemma KeysOfFullRecord(d: Record)
    requires FromRecord(d).Some? && StatusKey in d
    ensures d.Keys == AllKeys
  {
  }

  /** A record that lacks only the status gives an available book. */
  lemma RecordStatusDefault(d: Record)
    requires d.Keys == RequiredKeys
    ensures FromRecord(d).Some? && FromRecord(d).value.status == Available
  {
  }

  /** The list written to the file: `[book.__dict__ for book in books]`. */
  function Encode(bs: seq<Book>): (rs: seq<Record>)
    ensures |rs| == |bs|
    ensures forall i :: 0 <= i < |rs| ==> rs[i].Keys == AllKeys && FromRecord(rs[i]) == Some(bs[i])
  {
    seq(|bs|, i requires 0 <= i < |bs| => ToRecord(bs[i]))
  }

  /** `[Book(**d) for d in rs]`: None as soon as one record is refused. */
  function Decode(rs: seq<Record>): (r: Option<seq<Book>>)
    ensures r.Some? <==> forall i :: 0 <= i < |rs| ==> FromRecord(rs[i]).Some?
    ensures r.Some? ==> |r.value| == |rs| &&
                        forall i :: 0 <= i < |rs| ==> FromRecord(rs[i]) == Some(r.value[i])
  {
    if rs == [] then Some([])
    else
      match FromRecord(rs[0])
      case None => None
      case Some(b) =>
        match Decode(rs[1..])
        case None => None
        case Some(tail) => Some([b] + tail)
  }

  /** Decoding what was encoded gives back the same books in the same order. */
  lemma DecodeEncode(bs: seq<Book>)
    ensures Decode(Encode(bs)) == Some(bs)
  {
    var rs := Encode(bs);
    assert forall i :: 0 <= i < |rs| ==> FromRecord(rs[i]) == Some(bs[i]);
    var v := Decode(rs).value;
    assert forall i :: 0 <= i < |bs| ==> Some(v[i]) == Some(bs[i]);
    assert v == bs;
  }

  /** Encoding what was decoded gives back the records, provided each record
      carried its status explicitly. */
  lemma EncodeDecode(rs: seq<Record>)
    requires Decode(rs).Some?
    requires forall i :: 0 <= i < |rs| ==> StatusKey in rs[i]
    ensures Encode(Decode(rs).value) == rs
  {
    var bs := Decode(rs).value;
    var es := Encode(bs);
    forall i | 0 <= i < |rs|
      ensures es[i] == rs[i]
    {
      KeysOfFullRecord(rs[i]);
      RecordRoundTrip(rs[i]);
      assert Some(bs[i]) == FromRecord(rs[i]);
    }
    assert |es| == |rs|;
  }

  /** `load_books`: a missing file (None) is an empty library; otherwise the file's
      records are decoded, and None stands for the TypeError a bad record raises. */
  function LoadBooks(file: Option<seq<Record>>): (r: Option<seq<Book>>)
    ensures file.None? ==> r == Some([])
    ensures file.Some? ==> (r.Some? <==> forall i :: 0 <= i < |file.value| ==> FromRecord(file.value[i]).Some?)
  {
    match file
    case None => Some([])
    case Some(rs) => Decode(rs)
  }

  /** Loading a file that was saved from a list of books gives that list back. */
  lemma LoadAfterSave(bs: seq<Book>)
    ensures LoadBooks(Some(Encode(bs))) == Some(bs)
  {
    DecodeEncode(bs);
  }
}
