/** The records the dashboard keeps in memory, with the sheet's Hebrew
    dictionary keys mapped to named fields:
    document number, type, date, customer name, address, customer phone and
    status. A key that is missing from a record is modelled as the empty
    string, which is what the code's truthiness tests (`if (x)`, `x || y`)
    treat it as. */
module Records {

  /** The value of the `type` tag for an order. */
  const OrderType: string := "הזמנה"
  /** The value of the `type` tag for a delivery note. */
  const DeliveryNoteType: string := "תעודת משלוח"
  /** The terminal status, "completed". */
  const Completed: string := "הושלם"

  datatype Document = Document(
    number: string,
    docType: string,
    date: string,
    customerName: string,
    address: string,
    phone: string,
    status: string)

  /** An entry of the module-level `customers` list. */
  datatype Customer = Customer(name: string, address: string, phone: string)

  /** The `data` field of a remote reply: an array of rows, or anything
      else (absent, an object, a scalar). */
  datatype Payload = Rows(docs: seq<Document>) | NotAnArray

  /** The parsed JSON body of a remote reply, and also the value `fetchData`
      returns: a success flag, a message ("" when absent) and a payload. */
  datatype Body = Body(success: bool, message: string, data: Payload)

  /** The `{ success: false, message }` literal the gateway builds itself. */
  function FailureBody(message: string): (b: Body)
    ensures !b.success && b.message == message && !b.data.Rows?
  {
    Body(false, message, NotAnArray)
  }
}
