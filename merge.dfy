/** How `fetchDocuments` combines the two replies into one document list,
    and how each row of the table is classified. */
module Merge {
  import opened Records

  /** Every field but the type tag agrees. */
  predicate SameButType(a: Document, b: Document)
  {
    a.number == b.number && a.date == b.date && a.customerName == b.customerName &&
    a.address == b.address && a.phone == b.phone && a.status == b.status
  }

  /** `rows.map(d => ({ ...d, type: docType }))`. */
  function Tagged(rows: seq<Document>, docType: string): (r: seq<Document>)
    ensures |r| == |rows|
    ensures forall i :: 0 <= i < |r| ==> r[i].docType == docType && SameButType(r[i], rows[i])
  {
    seq(|rows|, i requires 0 <= i < |rows| => rows[i].(docType := docType))
  }

  /** The rows a reply contributes: those of a successful reply whose data
      is an array, and nothing otherwise. */
  function Accepted(reply: Body): (rows: seq<Document>)
    ensures reply.success && reply.data.Rows? ==> rows == reply.data.docs
    ensures !reply.success ==> rows == []
    ensures reply.data.NotAnArray? ==> rows == []
  {
    if reply.success && reply.data.Rows? then reply.data.docs else []
  }

  /** The list `allDocuments` is set to: the orders reply's rows tagged as
      orders, then the delivery-notes reply's rows tagged as delivery notes;
      a failed or non-array reply adds nothing. */
  function Merged(orders: Body, notes: Body): (all: seq<Document>)
    ensures |all| == |Accepted(orders)| + |Accepted(notes)|
    ensures forall i :: 0 <= i < |Accepted(orders)| ==>
              all[i].docType == OrderType && SameButType(all[i], Accepted(orders)[i])
    ensures forall i :: 0 <= i < |Accepted(notes)| ==>
              all[|Accepted(orders)| + i].docType == DeliveryNoteType &&
              SameButType(all[|Accepted(orders)| + i], Accepted(notes)[i])
    ensures !(orders.success && orders.data.Rows?) ==> |all| == |Accepted(notes)|
    ensures !(notes.success && notes.data.Rows?) ==> |all| == |Accepted(orders)|
  {
    Tagged(Accepted(orders), OrderType) + Tagged(Accepted(notes), DeliveryNoteType)
  }

  datatype RowStyle =
    | Pending    // warning colour and a "convert to delivery note" button
    | Delivered  // success colour, no action
    | Plain      // default colour, no action

  /** The classification `renderDocumentsTable` gives a row. */
  function StyleOf(d: Document): (s: RowStyle)
    ensures s == Pending <==> d.docType == OrderType && d.status != Completed
    ensures s == Delivered <==> d.docType == DeliveryNoteType
  {
    if d.docType == OrderType && d.status != Completed then Pending
    else if d.docType == DeliveryNoteType then Delivered
    else Plain
  }

  /** The convert button is offered exactly on the rows that came from the
      orders reply with a status other than completed; every row from the
      delivery-notes reply is shown as delivered. */
  lemma ConversionOfferedOnOpenOrders(orders: Body, notes: Body, i: nat)
    requires i < |Merged(orders, notes)|
    ensures var all := Merged(orders, notes);
            var n := |Accepted(orders)|;
            (StyleOf(all[i]) == Pending <==> i < n && Accepted(orders)[i].status != Completed) &&
            (StyleOf(all[i]) == Delivered <==> i >= n)
  {
    var n := |Accepted(orders)|;
    if i >= n {
      assert Merged(orders, notes)[n + (i - n)].docType == DeliveryNoteType;
    }
  }
}
