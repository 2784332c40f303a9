/** The page's module-level state (`allDocuments`, `customers`) and the
    operations that change it or act on it: reloading the documents,
    rebuilding the customer list, registering a customer from the form, and
    converting an order into a delivery note. Each remote call is given its
    transport as a `nat -> Response` (see module Gateway). */
module Dashboard {
  import opened Text
  import opened Records
  import opened DocNumbers
  import opened CustomerList
  import opened Gateway
  import opened Merge

  /** The delivery-note record `convertToDeliveryNote` sends: its type is
      sent under the document-type key, and it carries the number of the
      order it came from. */
  datatype NoteRecord = NoteRecord(
    number: string,
    docType: string,
    date: string,
    customerName: string,
    address: string,
    phone: string,
    status: string,
    linkedOrder: string)

  /** The remote calls the conversion issues, in order. */
  datatype Call =
    | AddDeliveryNote(note: NoteRecord)
    | UpdateOrderStatus(orderNumber: string, status: string)

  /** How a conversion ends; each case is the alert the page shows. */
  datatype Conversion =
    | OrderNotFound
    | NoteNotCreated
    | StatusNotUpdated(noteNumber: string)
    | Converted(noteNumber: string)

  /** `allDocuments.find(doc => doc['מספר מסמך'] === number)`, as the index
      it stops at; documents of either type are searched. */
  function FindByNumber(docs: seq<Document>, number: string): (r: Option<nat>)
    ensures r.Some? ==> r.value < |docs| && docs[r.value].number == number &&
                        forall l :: 0 <= l < r.value ==> docs[l].number != number
    ensures r.None? ==> forall l :: 0 <= l < |docs| ==> docs[l].number != number
  {
    if docs == [] then None
    else if docs[0].number == number then Some(0)
    else match FindByNumber(docs[1..], number)
      case None => None
      case Some(k) => Some(k + 1)
  }

  /** What a conversion does, given whether the delivery-note call and
      the status-update call succeed. */
  datatype Attempt = Attempt(outcome: Conversion, calls: seq<Call>)

  /** The conversion of the order with number `orderNumber`: an unknown
      number issues no call; otherwise the delivery note, numbered as the
      next delivery note and copying the order's date, customer, address and
      phone, with status completed and a link back to the order, is created
      first, and only after that succeeds is the order set to completed. */
  function Converting(docs: seq<Document>, orderNumber: string, created: bool, updated: bool): (a: Attempt)
    requires FindByNumber(docs, orderNumber).Some? ==> NumberParses(docs, DeliveryNoteType)
    ensures a.outcome == OrderNotFound <==> FindByNumber(docs, orderNumber).None?
    ensures a.outcome == OrderNotFound ==> a.calls == []
    ensures FindByNumber(docs, orderNumber).Some? ==>
              var order := docs[FindByNumber(docs, orderNumber).value];
              var noteNumber := GenerateDocNumber(docs, DeliveryNoteType);
              1 <= |a.calls| <= 2 && a.calls[0].AddDeliveryNote? &&
              a.calls[0].note == NoteRecord(noteNumber, DeliveryNoteType, order.date, order.customerName,
                                            order.address, order.phone, Completed, orderNumber) &&
              noteNumber[..3] == OtherPrefix &&
              (|a.calls| == 2 <==> created) &&
              (|a.calls| == 2 ==> a.calls[1] == UpdateOrderStatus(orderNumber, Completed)) &&
              (a.outcome == NoteNotCreated <==> !created) &&
              (a.outcome == StatusNotUpdated(noteNumber) <==> created && !updated) &&
              (a.outcome == Converted(noteNumber) <==> created && updated)
  {
    match FindByNumber(docs, orderNumber)
    case None => Attempt(OrderNotFound, [])
    case Some(k) =>
      var order := docs[k];
      var noteNumber := GenerateDocNumber(docs, DeliveryNoteType);
      var add := AddDeliveryNote(NoteRecord(noteNumber, DeliveryNoteType, order.date, order.customerName,
                                            order.address, order.phone, Completed, orderNumber));
      if !created then Attempt(NoteNotCreated, [add])
      else if !updated then Attempt(StatusNotUpdated(noteNumber), [add, UpdateOrderStatus(orderNumber, Completed)])
      else Attempt(Converted(noteNumber), [add, UpdateOrderStatus(orderNumber, Completed)])
  }

  class Page {
    var allDocuments: seq<Document>
    var customers: seq<Customer>

    /** The page's invariant: `customers` is the list derived from
        `allDocuments`. Every method that changes either list restores it. */
    predicate Valid()
      reads this
    {
      customers == Customers(allDocuments)
    }

    constructor ()
      ensures allDocuments == [] && customers == []
      ensures Valid()
    {
      allDocuments, customers := [], [];
    }

    /** Loads both lists, replaces `allDocuments` with their merge and
        rebuilds the customers from it. */
    method FetchDocuments(ordersNet: nat -> Response, notesNet: nat -> Response)
      modifies this
      ensures allDocuments == Merged(Fetch(ordersNet, 0).result, Fetch(notesNet, 0).result)
      ensures customers == Customers(allDocuments)
      ensures Valid()
    {
      var ordersData, _, _ := FetchData(ordersNet, 0);
      var notesData, _, _ := FetchData(notesNet, 0);
      var allDocs: seq<Document> := [];
      if ordersData.success && ordersData.data.Rows? {
        allDocs := allDocs + Tagged(ordersData.data.docs, OrderType);
        assert allDocs == Tagged(ordersData.data.docs, OrderType);
      }
      if notesData.success && notesData.data.Rows? {
        allDocs := allDocs + Tagged(notesData.data.docs, DeliveryNoteType);
      }
      allDocuments := allDocs;
      UpdateCustomerDataList();
    }

    /** Replaces `customers` wholesale with the list derived from
        `allDocuments`; whatever it held before is discarded. */
    method UpdateCustomerDataList()
      modifies this`customers
      ensures customers == Customers(allDocuments)
      ensures Valid()
    {
      customers := DeriveCustomers(allDocuments);
    }

    /** The customer step of the form's submit handler: a name not yet in
        `customers` is pushed and the list is then rebuilt, which drops the
        pushed entry again unless a loaded document carries that name. */
    method RegisterCustomer(name: string, address: string, phone: string)
      modifies this`customers
      ensures (exists i :: 0 <= i < |old(customers)| && old(customers)[i].name == name) ==>
                customers == old(customers)
      ensures (forall i :: 0 <= i < |old(customers)| ==> old(customers)[i].name != name) ==>
                customers == Customers(allDocuments)
      ensures old(Valid()) ==> Valid() && customers == old(customers)
    {
      var known := exists i :: 0 <= i < |customers| && customers[i].name == name;
      if !known {
        customers := customers + [Customer(name, address, phone)];
        UpdateCustomerDataList();
      }
    }

    /** `convertToDeliveryNote`: issues the calls `Converting` describes,
        each through `fetchData`, and ends with its outcome. */
    method ConvertToDeliveryNote(orderNumber: string, createNet: nat -> Response, updateNet: nat -> Response)
      returns (outcome: Conversion, calls: seq<Call>)
      requires FindByNumber(allDocuments, orderNumber).Some? ==> NumberParses(allDocuments, DeliveryNoteType)
      ensures Attempt(outcome, calls) ==
                Converting(allDocuments, orderNumber, Fetch(createNet, 0).result.success,
                           Fetch(updateNet, 0).result.success)
    {
      var found := FindByNumber(allDocuments, orderNumber);
      if found.None? {
        return OrderNotFound, [];
      }
      var order := allDocuments[found.value];
      var noteNumber := GenerateDocNumber(allDocuments, DeliveryNoteType);
      var note := NoteRecord(noteNumber, DeliveryNoteType, order.date, order.customerName,
                             order.address, order.phone, Completed, orderNumber);
      calls := [AddDeliveryNote(note)];
      var created, _, _ := FetchData(createNet, 0);
      assert created == Fetch(createNet, 0).result;
      if created.success {
        calls := [AddDeliveryNote(note), UpdateOrderStatus(orderNumber, Completed)];
        var updated, _, _ := FetchData(updateNet, 0);
        assert updated == Fetch(updateNet, 0).result;
        if updated.success {
          outcome := Converted(noteNumber);
        } else {
          outcome := StatusNotUpdated(noteNumber);
        }
      } else {
        outcome := NoteNotCreated;
      }
    }
  }
}
