/** The customer list of `updateCustomerDataList`: every distinct non-empty
    customer name once, in order of first appearance in the document list,
    with the address and phone of the first document that carries it. */
module CustomerList {
  import opened Text
  import opened Records

  /** Some document carries `name` as its customer name. */
  predicate Mentions(docs: seq<Document>, name: string)
  {
    exists k :: 0 <= k < |docs| && docs[k].customerName == name
  }

  /** `docs[k]` is the first document carrying `name`. */
  predicate IsFirstWith(docs: seq<Document>, k: int, name: string)
  {
    0 <= k < |docs| && docs[k].customerName == name &&
    forall l :: 0 <= l < k ==> docs[l].customerName != name
  }

  /** `docs.find(d => d['שם לקוח'] === name)`, as the index it stops at. */
  function FindByName(docs: seq<Document>, name: string): (r: Option<nat>)
    ensures r.Some? ==> IsFirstWith(docs, r.value, name)
    ensures r.None? ==> !Mentions(docs, name)
  {
    if docs == [] then None
    else if docs[0].customerName == name then Some(0)
    else match FindByName(docs[1..], name)
      case None => None
      case Some(k) => Some(k + 1)
  }

  lemma FirstIsUnique(docs: seq<Document>, k: int, k': int, name: string)
    requires IsFirstWith(docs, k, name) && IsFirstWith(docs, k', name)
    ensures k == k'
  {
  }

  /** The `uniqueCustomers` set after the `forEach` over the documents, in
      its insertion order: a document whose name is empty is skipped, and a
      name already present is not added again. */
  function CustomerNames(docs: seq<Document>): (names: seq<string>)
    ensures forall n :: n in names <==> n != "" && Mentions(docs, n)
  {
    if docs == [] then []
    else
      var prefix := docs[..|docs| - 1];
      var prev := CustomerNames(prefix);
      var n := docs[|docs| - 1].customerName;
      MentionsExtend(prefix, docs[|docs| - 1]);
      assert docs == prefix + [docs[|docs| - 1]];
      if n == "" || n in prev then prev else prev + [n]
  }

  lemma MentionsExtend(docs: seq<Document>, d: Document)
    ensures forall n :: Mentions(docs + [d], n) <==> Mentions(docs, n) || d.customerName == n
  {
    forall n | Mentions(docs + [d], n)
      ensures Mentions(docs, n) || d.customerName == n
    {
      var k :| 0 <= k < |docs + [d]| && (docs + [d])[k].customerName == n;
      if k < |docs| {
        assert docs[k] == (docs + [d])[k];
      }
    }
    forall n | Mentions(docs, n)
      ensures Mentions(docs + [d], n)
    {
      var k :| 0 <= k < |docs| && docs[k].customerName == n;
      assert (docs + [d])[k] == docs[k];
    }
    assert (docs + [d])[|docs|] == d;
  }

  /** The customer entry built for `name` from the first document carrying it. */
  function CustomerFor(docs: seq<Document>, name: string): Customer
    requires Mentions(docs, name)
  {
    var d := docs[FindByName(docs, name).value];
    Customer(d.customerName, d.address, d.phone)
  }

  /** The value `customers` is given: one entry per name of
      `CustomerNames`, each copied from the first document with that name. */
  function Customers(docs: seq<Document>): (cs: seq<Customer>)
    ensures |cs| == |CustomerNames(docs)|
    ensures forall i :: 0 <= i < |cs| ==>
              cs[i].name == CustomerNames(docs)[i] && cs[i].name != "" &&
              exists k :: IsFirstWith(docs, k, cs[i].name) &&
                          cs[i] == Customer(docs[k].customerName, docs[k].address, docs[k].phone)
  {
    var names := CustomerNames(docs);
    seq(|names|, i requires 0 <= i < |names| => CustomerFor(docs, names[i]))
  }

  /** Builds the customer list the way the page does: a `forEach` that
      fills a set of names, then one `find` per name. */
  method DeriveCustomers(docs: seq<Document>) returns (cs: seq<Customer>)
    ensures cs == Customers(docs)
  {
    var unique: seq<string> := [];
    for i := 0 to |docs|
      invariant unique == CustomerNames(docs[..i])
    {
      assert docs[..i + 1][..i] == docs[..i];
      var name := docs[i].customerName;
      if name != "" && name !in unique {
        unique := unique + [name];
      }
    }
    assert docs[..|docs|] == docs;
    cs := [];
    for j := 0 to |unique|
      invariant |cs| == j
      invariant forall l :: 0 <= l < j ==> cs[l] == CustomerFor(docs, unique[l])
    {
      var k := FindByName(docs, unique[j]);
      var d := docs[k.value];
      cs := cs + [Customer(d.customerName, d.address, d.phone)];
    }
  }

  predicate Distinct(names: seq<string>)
  {
    forall i, j :: 0 <= i < j < |names| ==> names[i] != names[j]
  }

  /** No name appears twice. */
  lemma {:induction false} CustomerNamesDistinct(docs: seq<Document>)
    ensures Distinct(CustomerNames(docs))
  {
    if docs != [] {
      var prefix := docs[..|docs| - 1];
      var last := docs[|docs| - 1].customerName;
      CustomerNamesDistinct(prefix);
      var prev := CustomerNames(prefix);
      var names := CustomerNames(docs);
      assert names == prev || (names == prev + [last] && last !in prev);
      forall i, j | 0 <= i < j < |names|
        ensures names[i] != names[j]
      {
        if j == |prev| {
          assert names[i] == prev[i] && prev[i] in prev;
        } else {
          assert names[i] == prev[i] && names[j] == prev[j];
        }
      }
    }
  }

  ghost predicate InFirstAppearanceOrder(docs: seq<Document>, names: seq<string>)
  {
    forall i, j, ki, kj ::
      0 <= i < j < |names| && IsFirstWith(docs, ki, names[i]) && IsFirstWith(docs, kj, names[j])
      ==> ki < kj
  }

  /** The names come in the order in which they first appear among the
      documents. */
  lemma {:induction false} CustomerNamesInFirstAppearanceOrder(docs: seq<Document>)
    ensures InFirstAppearanceOrder(docs, CustomerNames(docs))
  {
    if docs != [] {
      var prefix := docs[..|docs| - 1];
      var last := docs[|docs| - 1];
      assert docs == prefix + [last];
      CustomerNamesInFirstAppearanceOrder(prefix);
      var names := CustomerNames(docs);
      var prev := CustomerNames(prefix);
      assert names == prev || names == prev + [last.customerName];
      forall i, j, ki, kj |
        0 <= i < j < |names| && IsFirstWith(docs, ki, names[i]) && IsFirstWith(docs, kj, names[j])
        ensures ki < kj
      {
        // a name of the prefix first appears inside the prefix
        assert names[i] == prev[i];
        var fi := FindByName(prefix, names[i]).value;
        assert IsFirstWith(docs, fi, names[i]);
        FirstIsUnique(docs, ki, fi, names[i]);
        if j < |prev| {
          assert names[j] == prev[j];
          var fj := FindByName(prefix, names[j]).value;
          assert IsFirstWith(docs, fj, names[j]);
          FirstIsUnique(docs, kj, fj, names[j]);
          assert IsFirstWith(prefix, fi, prev[i]) && IsFirstWith(prefix, fj, prev[j]);
        } else {
          // the new name does not occur in the prefix: it first appears last
          assert names[j] == last.customerName && names[j] !in prev;
          assert !Mentions(prefix, names[j]);
          assert kj == |docs| - 1;
        }
      }
    }
  }

  /** Every document with a non-empty customer name has exactly one
      customer entry with that name; documents with an empty name have
      none. */
  lemma EachNamedDocumentHasOneCustomer(docs: seq<Document>, k: nat)
    requires k < |docs|
    ensures var cs := Customers(docs);
            var name := docs[k].customerName;
            (name != "" ==> exists i :: 0 <= i < |cs| && cs[i].name == name) &&
            (forall i, j :: 0 <= i < |cs| && 0 <= j < |cs| && cs[i].name == name && cs[j].name == name ==> i == j) &&
            (name == "" ==> forall i :: 0 <= i < |cs| ==> cs[i].name != name)
  {
    var cs := Customers(docs);
    var names := CustomerNames(docs);
    var name := docs[k].customerName;
    CustomerNamesDistinct(docs);
    forall i, j | 0 <= i < |cs| && 0 <= j < |cs| && cs[i].name == name && cs[j].name == name
      ensures i == j
    {
      assert names[i] == names[j];
    }
    if name != "" {
      assert Mentions(docs, name);
      assert name in names;
      var i :| 0 <= i < |names| && names[i] == name;
      assert cs[i].name == name;
    }
  }

  /** Documents added at the end of the list never change the entries the
      earlier documents produced: the first document with a name wins. */
  lemma {:induction false} CustomersKeepFirstDocument(docs: seq<Document>, more: seq<Document>)
    ensures Customers(docs) <= Customers(docs + more)
  {
    var cs := Customers(docs);
    var cs' := Customers(docs + more);
    NamesPrefix(docs, more);
    forall i | 0 <= i < |cs|
      ensures cs[i] == cs'[i]
    {
      var name := cs[i].name;
      var k :| IsFirstWith(docs, k, name) &&
               cs[i] == Customer(docs[k].customerName, docs[k].address, docs[k].phone);
      var k' :| IsFirstWith(docs + more, k', name) &&
                cs'[i] == Customer((docs + more)[k'].customerName, (docs + more)[k'].address, (docs + more)[k'].phone);
      assert (docs + more)[k] == docs[k];
      assert IsFirstWith(docs + more, k, name);
      FirstIsUnique(docs + more, k, k', name);
    }
  }

  lemma {:induction false} NamesPrefix(docs: seq<Document>, more: seq<Document>)
    ensures CustomerNames(docs) <= CustomerNames(docs + more)
  {
    if more == [] {
      assert docs + more == docs;
    } else {
      var more' := more[..|more| - 1];
      NamesPrefix(docs, more');
      assert (docs + more)[..|docs + more| - 1] == docs + more';
    }
  }
}
