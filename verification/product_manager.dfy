/** The product record manager: loading and ordering the product list, the
    product form's validation, the sale entries drafted inside the form and
    the stock rule that guards them, and the save and delete handlers. */
module ProductManager {
  import opened Wrappers
  import opened Text
  import opened Seqs
  import opened Json
  import opened Dedup
  import opened Sorting
  import opened Forms
  import Crud

  // ----------------------------------------------------------------------
  // Loading the list

  /** What the model takes from the JavaScript host instead of computing
      it: `new Date(v).getTime()` for a truthy `createdAt`, and `String(v)`
      for an id that is not a string. */
  datatype Host = Host(millis: Json -> int, text: Json -> string)

  /** `a && a.createdAt ? new Date(a.createdAt).getTime() : 0`. */
  function CreatedTime(p: Json, host: Host): int {
    var c := Get(p, "createdAt");
    if Truthy(c) then host.millis(c.value) else 0
  }

  /** `String(v)`: a string is its own text, anything else is the host's. */
  function TextOf(v: Json, host: Host): (t: string)
    ensures v.Str? ==> t == v.s
  {
    if v.Str? then v.s else host.text(v)
  }

  /** `String(a?.id ?? '')`. */
  function IdText(p: Json, host: Host): string {
    match Crud.IdOf(p)
    case None => ""
    case Some(Null) => ""
    case Some(v) => TextOf(v, host)
  }

  /** The list comparator: newest `createdAt` first (missing counts as 0),
      then the id text in descending order. */
  function ListRank(host: Host): Json -> Rank {
    p => Rank(CreatedTime(p, host), IdText(p, host))
  }

  /** The product list on screen and whether the last refresh failed. */
  datatype Listing = Listing(items: seq<Json>, loadFailed: bool)

  /** `refreshProducts`: de-duplicate the fetched list by id, then sort it.
      A failed refresh shows an empty list, whatever was shown before. */
  function Refresh(reply: Crud.Reply, host: Host): (l: Listing)
    ensures l.loadFailed <==> !reply.success || Null in Crud.ListOf(reply.data)
    ensures l.loadFailed ==> l.items == []
    ensures !l.loadFailed ==>
              multiset(l.items) == multiset(DedupByKey(Crud.ListOf(reply.data), Crud.IdOf))
    ensures SortedDesc(l.items, ListRank(host))
  {
    match Crud.LoadUnique(reply)
    case None => Listing([], true)
    case Some(unique) => Listing(SortDesc(unique, ListRank(host)), false)
  }

  /** After a successful refresh the list holds exactly one record per
      distinct id of the fetched data, and that record is the last one the
      data carried for its id. */
  lemma RefreshOnePerId(reply: Crud.Reply, host: Host)
    requires !Refresh(reply, host).loadFailed
    ensures var items := Refresh(reply, host).items;
            var list := Crud.ListOf(reply.data);
            && Distinct(Keys(items, Crud.IdOf))
            && (forall i :: 0 <= i < |list| ==> Crud.IdOf(list[i]) in Keys(items, Crud.IdOf))
            && (forall i :: 0 <= i < |items| ==>
                  Crud.IdOf(items[i]) in Keys(list, Crud.IdOf) &&
                  items[i] == LastWith(list, Crud.IdOf, Crud.IdOf(items[i])))
  {
    PermutedDedup(DedupByKey(Crud.ListOf(reply.data), Crud.IdOf), Crud.ListOf(reply.data), Crud.IdOf,
                  Refresh(reply, host).items);
  }

  // ----------------------------------------------------------------------
  // The product form and its validation

  /** One sale entry of a product. A missing quantity counts as 0. The
      user id is whatever the user picker's item carried: the loaded
      user's `id`, a number or a string. */
  datatype Sale = Sale(id: string, userId: Json, quantity: Option<real>, date: string)

  /** The product form; `price` and `quantity` are the numbers typed into
      number fields, `None` when the field is blank. */
  datatype ProductForm = ProductForm(
    name: string,
    price: Option<real>,
    description: string,
    category: string,
    quantity: Option<real>,
    sales: seq<Sale>)

  /** `/^[a-zA-Z0-9\s\-']+$/` accepts exactly strings of these characters. */
  predicate IsProductNameChar(c: char) {
    ('a' <= c <= 'z') || ('A' <= c <= 'Z') || ('0' <= c <= '9') || IsSpace(c) || c == '-' || c == '\''
  }

  /** The name rule: 2 to 100 characters after trimming, all of them from
      the allowed set. */
  predicate ProductNameOk(name: string) {
    var t := Trim(name);
    2 <= |t| <= 100 && forall i :: 0 <= i < |t| ==> IsProductNameChar(t[i])
  }

  predicate PriceOk(price: Option<real>) {
    price.Some? && 0.0 < price.value <= 999999.0
  }

  predicate DescriptionOk(description: string) {
    10 <= |Trim(description)| <= 500
  }

  predicate IsWhole(x: real) {
    x.Floor as real == x
  }

  predicate QuantityOk(quantity: Option<real>) {
    quantity.Some? && quantity.value >= 0.0 && IsWhole(quantity.value)
  }

  function NameMessage(name: string): (m: Option<Message>)
    ensures m.None? <==> ProductNameOk(name)
    ensures m == Some(Required) <==> AllSpace(name)
  {
    var t := Trim(name);
    if |t| == 0 then Some(Required)
    else if |t| < 2 then Some(TooShort)
    else if |t| > 100 then Some(TooLong)
    else if exists i :: 0 <= i < |t| && !IsProductNameChar(t[i]) then Some(BadCharacters)
    else None
  }

  function PriceMessage(price: Option<real>): (m: Option<Message>)
    ensures m.None? <==> PriceOk(price)
    ensures m == Some(Required) <==> price.None?
  {
    if price.None? then Some(Required)
    else if price.value <= 0.0 then Some(NotPositive)
    else if price.value > 999999.0 then Some(TooLarge)
    else None
  }

  function DescriptionMessage(description: string): (m: Option<Message>)
    ensures m.None? <==> DescriptionOk(description)
    ensures m == Some(Required) <==> AllSpace(description)
  {
    var t := Trim(description);
    if |t| == 0 then Some(Required)
    else if |t| < 10 then Some(TooShort)
    else if |t| > 500 then Some(TooLong)
    else None
  }

  function QuantityMessage(quantity: Option<real>): (m: Option<Message>)
    ensures m.None? <==> QuantityOk(quantity)
    ensures m == Some(Required) <==> quantity.None?
  {
    if quantity.None? then Some(Required)
    else if quantity.value < 0.0 then Some(Negative)
    else if !IsWhole(quantity.value) then Some(NotInteger)
    else None
  }

  /** The message, if any, the product form's check of `fld` produces. */
  function Check(f: ProductForm, fld: Field): Option<Message> {
    match fld
    case Name => NameMessage(f.name)
    case Price => PriceMessage(f.price)
    case Description => DescriptionMessage(f.description)
    case Category => if f.category == "" then Some(Required) else None
    case Quantity => QuantityMessage(f.quantity)
    case _ => None
  }

  const ProductFields: set<Field> := {Name, Price, Description, Category, Quantity}

  /** `validate`: every field is checked (not fail-fast), each at most once. */
  function Validate(f: ProductForm): (errs: Errors)
    ensures errs.Keys <= ProductFields
    ensures Name in errs <==> !ProductNameOk(f.name)
    ensures Price in errs <==> !PriceOk(f.price)
    ensures Description in errs <==> !DescriptionOk(f.description)
    ensures Category in errs <==> f.category == ""
    ensures Quantity in errs <==> !QuantityOk(f.quantity)
    ensures Name in errs ==> (errs[Name] == Required <==> AllSpace(f.name))
    ensures Price in errs ==> (errs[Price] == Required <==> f.price.None?)
    ensures Category in errs ==> errs[Category] == Required
    ensures Name in errs ==> errs[Name] == NameMessage(f.name).value
    ensures Price in errs ==> errs[Price] == PriceMessage(f.price).value
    ensures Description in errs ==> errs[Description] == DescriptionMessage(f.description).value
    ensures Quantity in errs ==> errs[Quantity] == QuantityMessage(f.quantity).value
  {
    Collect(ProductFields, fld => Check(f, fld))
  }

  predicate FormValid(f: ProductForm) {
    ProductNameOk(f.name) && PriceOk(f.price) && DescriptionOk(f.description)
    && f.category != "" && QuantityOk(f.quantity)
  }

  /** `validate()` returns true exactly when every field rule holds. */
  lemma ValidateAcceptsExactlyValidForms(f: ProductForm)
    ensures |Validate(f)| == 0 <==> FormValid(f)
  {
    var errs := Validate(f);
    if !FormValid(f) {
      assert errs.Keys != {};
    }
  }

  // ----------------------------------------------------------------------
  // The stock rule

  /** `Number(s.quantity || 0)`. */
  function SaleQuantity(s: Sale): real {
    s.quantity.GetOr(0.0)
  }

  /** `totalSold`: the sum of the entries' quantities. */
  function TotalSold(sales: seq<Sale>): real {
    if |sales| == 0 then 0.0 else SaleQuantity(sales[0]) + TotalSold(sales[1..])
  }

  lemma {:induction false} TotalSoldAppend(a: seq<Sale>, b: seq<Sale>)
    ensures TotalSold(a + b) == TotalSold(a) + TotalSold(b)
  {
    if |a| > 0 {
      assert (a + b)[1..] == a[1..] + b;
      TotalSoldAppend(a[1..], b);
    } else {
      assert a + b == b;
    }
  }

  /** With no negative quantities, dropping entries never raises the total. */
  lemma {:induction false} TotalSoldSubseq(a: seq<Sale>, b: seq<Sale>)
    requires SubseqOf(a, b)
    requires forall i :: 0 <= i < |b| ==> SaleQuantity(b[i]) >= 0.0
    ensures TotalSold(a) <= TotalSold(b)
  {
    if |b| > 0 {
      assert SaleQuantity(b[0]) >= 0.0;
      assert TotalSold(b) == SaleQuantity(b[0]) + TotalSold(b[1..]);
      if |a| > 0 && a[0] == b[0] && SubseqOf(a[1..], b[1..]) {
        TotalSoldSubseq(a[1..], b[1..]);
      } else if |a| > 0 {
        TotalSoldSubseq(a, b[1..]);
      } else {
        TotalSoldSubseq(a, b[1..]);
      }
    }
  }

  /** `Number(form.quantity || 0)`. */
  function StockQuantity(f: ProductForm): real {
    f.quantity.GetOr(0.0)
  }

  /** `remainingStock`: `max(0, quantity - totalSold)`. */
  function RemainingStock(f: ProductForm): (r: real)
    ensures r >= 0.0
    ensures r >= StockQuantity(f) - TotalSold(f.sales)
    ensures r == 0.0 || r == StockQuantity(f) - TotalSold(f.sales)
  {
    var left := StockQuantity(f) - TotalSold(f.sales);
    if left > 0.0 then left else 0.0
  }

  /** The sale being drafted under the form. */
  datatype SaleDraft = SaleDraft(userId: Json, quantity: Option<real>, date: string)

  /** The blank draft: no user picked, no quantity, dated `today`. */
  function BlankDraft(today: string): SaleDraft {
    SaleDraft(Str(""), None, today)
  }

  /** The notice the sale buttons raise. */
  datatype SaleNotice = NoNotice | StockExceeded(remaining: real) | FixSaleFields

  /** The open product dialog: the form, the sale draft, the last notice. */
  datatype Editor = Editor(form: ProductForm, draft: SaleDraft, notice: SaleNotice)

  /** `Number(saleDraft.quantity || 0)`. */
  function DraftQuantity(d: SaleDraft): real {
    d.quantity.GetOr(0.0)
  }

  /** The draft's field checks: a user, a positive quantity and a date. */
  predicate DraftComplete(d: SaleDraft) {
    Truthy(Some(d.userId)) && d.quantity.Some? && d.quantity.value > 0.0 && d.date != ""
  }

  /** The entry an accepted draft becomes; `stamp` is the `Date.now()`
      reading that makes its id. */
  function EntryOf(d: SaleDraft, stamp: string, host: Host): Sale {
    Sale(TextOf(d.userId, host) + "-" + d.date + "-" + stamp, d.userId, Some(DraftQuantity(d)), d.date)
  }

  /** `handleAddSale`: the stock check comes first, then the field checks;
      an accepted draft is appended as one entry and the draft is reset to
      a blank one dated `today`. */
  function AddSale(e: Editor, stamp: string, today: string, host: Host): (e': Editor)
    ensures DraftQuantity(e.draft) > RemainingStock(e.form) ==>
              e' == e.(notice := StockExceeded(RemainingStock(e.form)))
    ensures DraftQuantity(e.draft) <= RemainingStock(e.form) && !DraftComplete(e.draft) ==>
              e' == e.(notice := FixSaleFields)
    ensures DraftQuantity(e.draft) <= RemainingStock(e.form) && DraftComplete(e.draft) ==>
              && e'.form == e.form.(sales := e.form.sales + [EntryOf(e.draft, stamp, host)])
              && e'.draft == BlankDraft(today)
              && e'.notice == e.notice
  {
    var qty := DraftQuantity(e.draft);
    var remaining := RemainingStock(e.form);
    if qty > remaining then e.(notice := StockExceeded(remaining))
    else if !DraftComplete(e.draft) then e.(notice := FixSaleFields)
    else
      var form' := e.form.(sales := e.form.sales + [EntryOf(e.draft, stamp, host)]);
      Editor(form', BlankDraft(today), e.notice)
  }

  /** An accepted sale never takes the total sold above the quantity in
      stock, whatever the entries held before. */
  lemma AddSaleRespectsStock(e: Editor, stamp: string, today: string, host: Host)
    requires AddSale(e, stamp, today, host).form != e.form
    ensures TotalSold(AddSale(e, stamp, today, host).form.sales) <= StockQuantity(e.form)
    ensures AddSale(e, stamp, today, host).form.quantity == e.form.quantity
  {
    var entry := EntryOf(e.draft, stamp, host);
    TotalSoldAppend(e.form.sales, [entry]);
    assert TotalSold([entry]) == DraftQuantity(e.draft);
  }

  /** So "total sold within stock" is an invariant of the sale buttons. */
  lemma AddSaleKeepsStockInvariant(e: Editor, stamp: string, today: string, host: Host)
    requires TotalSold(e.form.sales) <= StockQuantity(e.form)
    ensures TotalSold(AddSale(e, stamp, today, host).form.sales) <= StockQuantity(AddSale(e, stamp, today, host).form)
  {
    if AddSale(e, stamp, today, host).form != e.form {
      AddSaleRespectsStock(e, stamp, today, host);
    }
  }

  /** `handleRemoveSale(id)`: drop the entries with that id, keep the rest
      in order, change nothing else. */
  function RemoveSale(e: Editor, id: string): (e': Editor)
    ensures e' == e.(form := e.form.(sales := e'.form.sales))
    ensures forall i :: 0 <= i < |e'.form.sales| ==> e'.form.sales[i].id != id && e'.form.sales[i] in e.form.sales
    ensures forall i :: 0 <= i < |e.form.sales| && e.form.sales[i].id != id ==> e.form.sales[i] in e'.form.sales
    ensures SubseqOf(e'.form.sales, e.form.sales)
    ensures forall s :: multiset(e'.form.sales)[s] == if s.id != id then multiset(e.form.sales)[s] else 0
  {
    FilterMultiset(e.form.sales, (s: Sale) => s.id != id);
    e.(form := e.form.(sales := Filter(e.form.sales, (s: Sale) => s.id != id)))
  }

  /** Removing entries keeps the stock invariant when no entry is negative. */
  lemma RemoveSaleKeepsStockInvariant(e: Editor, id: string)
    requires TotalSold(e.form.sales) <= StockQuantity(e.form)
    requires forall i :: 0 <= i < |e.form.sales| ==> SaleQuantity(e.form.sales[i]) >= 0.0
    ensures TotalSold(RemoveSale(e, id).form.sales) <= StockQuantity(RemoveSale(e, id).form)
  {
    TotalSoldSubseq(RemoveSale(e, id).form.sales, e.form.sales);
  }

  /** Stock of 10 with 4 sold: a sale of 7 is refused, a sale of 6 is
      accepted and leaves nothing in stock. */
  lemma StockScenario(host: Host)
    ensures var form := ProductForm("Desk lamp", Some(25.0), "A sturdy desk lamp", "Home & Garden",
                                    Some(10.0), [Sale("s1", Num(1.0), Some(4.0), "2025-08-01")]);
            && AddSale(Editor(form, SaleDraft(Num(2.0), Some(7.0), "2025-08-02"), NoNotice), "1", "2025-08-03", host).notice
               == StockExceeded(6.0)
            && RemainingStock(AddSale(Editor(form, SaleDraft(Num(2.0), Some(6.0), "2025-08-02"), NoNotice), "1", "2025-08-03", host).form)
               == 0.0
  {
    var form := ProductForm("Desk lamp", Some(25.0), "A sturdy desk lamp", "Home & Garden",
                            Some(10.0), [Sale("s1", Num(1.0), Some(4.0), "2025-08-01")]);
    var draft := SaleDraft(Num(2.0), Some(6.0), "2025-08-02");
    var after := AddSale(Editor(form, draft, NoNotice), "1", "2025-08-03", host).form;
    TotalSoldAppend(form.sales, [EntryOf(draft, "1", host)]);
    assert TotalSold(after.sales) == 10.0;
  }

  /** A numeric user id picked from the list resolves to that user's name,
      and is stored as the number it is. */
  lemma NumericUserScenario(host: Host)
    ensures var users := [Obj(map["id" := Num(1.0), "name" := Str("Al")])];
            && ResolveUserName(users, Num(1.0)) == Some(Str("Al"))
            && ResolveUserName(users, Str("1")) == Some(Str("1"))
            && SaleRecord(EntryOf(SaleDraft(Num(1.0), Some(2.0), "2025-08-02"), "7", host))["userId"] == Num(1.0)
  {
    var users := [Obj(map["id" := Num(1.0), "name" := Str("Al")])];
    assert Crud.IdOf(users[0]) == Some(Num(1.0));
  }

  /** Position of the first loaded user whose id is `userId`. */
  function FindUser(users: seq<Json>, userId: Json): (r: Option<nat>)
    ensures r.Some? ==> r.value < |users| && Crud.IdOf(users[r.value]) == Some(userId)
    ensures r.Some? ==> forall j :: 0 <= j < r.value ==> Crud.IdOf(users[j]) != Some(userId)
    ensures r.None? ==> forall j :: 0 <= j < |users| ==> Crud.IdOf(users[j]) != Some(userId)
  {
    if |users| == 0 then None
    else if Crud.IdOf(users[0]) == Some(userId) then Some(0)
    else match FindUser(users[1..], userId)
      case None => None
      case Some(k) => Some(k + 1)
  }

  /** `resolveUserName(userId)`: the name of the first loaded user with that
      id (`None` when that user has no name), or the id itself when no user
      has it. */
  function ResolveUserName(users: seq<Json>, userId: Json): (r: Option<Json>)
    ensures (forall i :: 0 <= i < |users| ==> Crud.IdOf(users[i]) != Some(userId)) ==> r == Some(userId)
    ensures forall i :: 0 <= i < |users| && Crud.IdOf(users[i]) == Some(userId)
              && (forall j :: 0 <= j < i ==> Crud.IdOf(users[j]) != Some(userId))
              ==> r == Get(users[i], "name")
  {
    match FindUser(users, userId)
    case None => Some(userId)
    case Some(k) =>
      forall i | 0 <= i < |users| && Crud.IdOf(users[i]) == Some(userId)
                 && (forall j :: 0 <= j < i ==> Crud.IdOf(users[j]) != Some(userId))
        ensures i == k
      {
      }
      Get(users[k], "name")
  }

  /** The users offered in the sale draft: replaced only by a successful
      fetch that returned an array. */
  function LoadSaleUsers(current: seq<Json>, reply: Crud.Reply): (r: seq<Json>)
    ensures reply.success && reply.data.Arr? ==> r == reply.data.items
    ensures !(reply.success && reply.data.Arr?) ==> r == current
  {
    if reply.success && reply.data.Arr? then reply.data.items else current
  }

  // ----------------------------------------------------------------------
  // Save and delete

  /** One stored sale as `JSON.stringify` writes it: an absent quantity
      (`undefined`) leaves no key behind. */
  function SaleRecord(s: Sale): (r: Record)
    ensures r.Keys == {"id", "userId", "date"} + (if s.quantity.Some? then {"quantity"} else {})
    ensures r["id"] == Str(s.id) && r["userId"] == s.userId && r["date"] == Str(s.date)
    ensures s.quantity.Some? ==> r["quantity"] == Num(s.quantity.value)
  {
    var base := map["id" := Str(s.id), "userId" := s.userId, "date" := Str(s.date)];
    if s.quantity.Some? then base["quantity" := Num(s.quantity.value)] else base
  }

  /** The `sales` array as sent: one record per entry, in order. */
  function SaleRecords(sales: seq<Sale>): (a: seq<Json>)
    ensures |a| == |sales|
    ensures forall i :: 0 <= i < |sales| ==> a[i] == Obj(SaleRecord(sales[i]))
  {
    seq(|sales|, i requires 0 <= i < |sales| => Obj(SaleRecord(sales[i])))
  }

  /** The payload built from the form; `Number('')` is 0. */
  function Payload(f: ProductForm): (p: Record)
    ensures p.Keys == {"name", "price", "description", "category", "quantity", "sales"}
    ensures FormValid(f) ==> p["price"] == Num(f.price.value) && p["quantity"] == Num(f.quantity.value)
    ensures p["name"] == Str(f.name) && p["description"] == Str(f.description) && p["category"] == Str(f.category)
    ensures p["sales"].Arr? && |p["sales"].items| == |f.sales|
    ensures forall i :: 0 <= i < |f.sales| ==> p["sales"].items[i] == Obj(SaleRecord(f.sales[i]))
  {
    map[
      "name" := Str(f.name),
      "price" := Num(f.price.GetOr(0.0)),
      "description" := Str(f.description),
      "category" := Str(f.category),
      "quantity" := Num(f.quantity.GetOr(0.0)),
      "sales" := Arr(SaleRecords(f.sales))
    ]
  }

  /** A created product also carries `createdAt`, the ISO time `now`. */
  function CreateBody(f: ProductForm, now: string): (b: Record)
    ensures b.Keys == Payload(f).Keys + {"createdAt"}
    ensures b["createdAt"] == Str(now)
    ensures forall k :: k in Payload(f) ==> b[k] == Payload(f)[k]
  {
    Payload(f)["createdAt" := Str(now)]
  }

  /** `handleSave` of the product dialog: nothing is sent for an invalid
      form, and a valid one is created with its `createdAt`, or written
      over the record found by the lookup. */
  function HandleSave(f: ProductForm, editing: Option<Json>, lookup: Crud.Reply, write: Crud.Reply, now: string): (e: Crud.Effects)
    ensures e.write.Some? ==> FormValid(f)
    ensures !FormValid(f) ==> e == Crud.Effects(None, None, Crud.Invalid)
    ensures FormValid(f) ==> e == Crud.Save(true, editing, Payload(f), CreateBody(f, now), lookup, write)
  {
    ValidateAcceptsExactlyValidForms(f);
    Crud.Save(|Validate(f)| == 0, editing, Payload(f), CreateBody(f, now), lookup, write)
  }

  /** Saving an edited product that passes validation: a failed lookup
      writes nothing, an empty one creates the product, and a found record
      is overwritten by the form's fields, keeping its own id and any
      fields the form does not have. */
  lemma EditDecisions(f: ProductForm, editing: Option<Json>, lookup: Crud.Reply, write: Crud.Reply, now: string)
    requires FormValid(f) && editing.Some?
    ensures var e := HandleSave(f, editing, lookup, write, now);
            && e.lookup == editing
            && (!lookup.success ==> e.write.None? && e.outcome == Crud.Failed(Crud.LookupStage, lookup.status))
            && (lookup.success && Crud.ListOf(lookup.data) == [] ==> e.write == Some(Crud.Post(CreateBody(f, now))))
            && (lookup.success && |Crud.ListOf(lookup.data)| > 0 && Crud.ListOf(lookup.data)[0] != Null ==>
                  var found0 := Crud.ListOf(lookup.data)[0];
                  e.write == Some(Crud.Put(Crud.IdOf(found0), Crud.UpdateBody(found0, Payload(f)))))
            && (e.outcome == Crud.Succeeded ==> e.write.Some? && write.success)
  {
  }

  /** `handleDelete(id)`. */
  function HandleDelete(id: Json, lookup: Crud.Reply, del: Crud.Reply): (e: Crud.Effects)
    ensures e.outcome == Crud.Succeeded <==>
              lookup.success && (Crud.ListOf(lookup.data) == [] ||
                                 (Crud.ListOf(lookup.data)[0] != Null && (del.success || del.status == 404)))
    ensures e.write.Some? ==>
              |Crud.ListOf(lookup.data)| > 0 && e.write == Some(Crud.Delete(Crud.IdOf(Crud.ListOf(lookup.data)[0])))
    ensures e.lookup == Some(id)
    ensures lookup.success && |Crud.ListOf(lookup.data)| > 0 && Crud.ListOf(lookup.data)[0] != Null ==>
              e.write == Some(Crud.Delete(Crud.IdOf(Crud.ListOf(lookup.data)[0])))
    ensures lookup.success && |Crud.ListOf(lookup.data)| > 0 && Crud.ListOf(lookup.data)[0] == Null ==>
              e.write.None? && e.outcome == Crud.Crashed
    ensures !lookup.success ==> e.write.None? && e.outcome == Crud.Failed(Crud.LookupStage, lookup.status)
  {
    Crud.Remove(id, lookup, del)
  }
}
