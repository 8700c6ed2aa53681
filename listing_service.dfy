/** The client's listing service: the status badge text and colour, the query
    string `getAllListings` sends, the form fields `createListing` posts, and the
    fallbacks of its reads. The wire encodings (URL escaping, multipart) are not
    modelled: a query string is its list of (name, value) pairs in order, a form
    is its list of entries in order. */
module ListingService {
  import opened Common
  import opened Store
  import opened ListingController

  const Green: string := "bg-green-100 text-green-800"
  const Yellow: string := "bg-yellow-100 text-yellow-800"
  const Red: string := "bg-red-100 text-red-800"
  const Gray: string := "bg-gray-100 text-gray-800"

  /** `getStatusText` */
  function StatusText(status: string): (t: string)
    ensures t != "Unknown" <==> status in ListingStatuses
    ensures status == "approved" ==> t == "Approved"
    ensures status == "pending" ==> t == "Pending"
    ensures status == "rejected" ==> t == "Rejected"
    ensures status == "spam" ==> t == "Spam"
  {
    match status
    case "approved" => "Approved"
    case "pending" => "Pending"
    case "rejected" => "Rejected"
    case "spam" => "Spam"
    case _ => "Unknown"
  }

  /** Distinct statuses the server accepts get distinct labels. */
  lemma StatusTextDistinguishesStatuses(s1: string, s2: string)
    requires s1 in ListingStatuses && s2 in ListingStatuses && s1 != s2
    ensures StatusText(s1) != StatusText(s2)
  {
  }

  /** `getStatusColor`: `spam` and every status outside the whitelist share the gray badge. */
  function StatusColor(status: string): (c: string)
    ensures c in [Green, Yellow, Red, Gray]
    ensures c == Gray <==> status !in ["approved", "pending", "rejected"]
    ensures status == "approved" ==> c == Green
    ensures status == "pending" ==> c == Yellow
    ensures status == "rejected" ==> c == Red
  {
    match status
    case "approved" => Green
    case "pending" => Yellow
    case "rejected" => Red
    case "spam" => Gray
    case _ => Gray
  }

  // ---------------------------------------------------------------------------
  // getAllListings: the query string
  // ---------------------------------------------------------------------------

  /** `params.append` for each filter that is present and not empty, in the
      order category, status, userId. */
  method BuildQueryParams(filters: ListingQuery) returns (params: seq<(string, string)>)
    ensures params == QueryParams(filters)
    ensures ParseQuery(params) == Supplied(filters)
  {
    params := [];
    if Truthy(filters.category) {
      params := params + [("category", filters.category.value)];
    }
    if Truthy(filters.status) {
      params := params + [("status", filters.status.value)];
    }
    if Truthy(filters.userId) {
      params := params + [("userId", filters.userId.value)];
    }
    QueryRoundTrip(filters);
  }

  /** One `if (v) params.append(name, v)`. */
  function OptionalParam(name: string, v: Option<string>): (params: seq<(string, string)>)
    ensures forall e :: e in params ==> e.0 == name
    ensures params != [] <==> Truthy(v)
    ensures params != [] ==> params == [(name, v.value)]
  {
    if Truthy(v) then [(name, v.value)] else []
  }

  function QueryParams(filters: ListingQuery): seq<(string, string)> {
    OptionalParam("category", filters.category) + OptionalParam("status", filters.status)
    + OptionalParam("userId", filters.userId)
  }

  /** The value of the first pair named `name`. */
  function Param(params: seq<(string, string)>, name: string): (v: Option<string>)
    ensures v.Some? <==> exists k :: 0 <= k < |params| && params[k].0 == name
    ensures v.Some? ==> exists k :: 0 <= k < |params| && params[k] == (name, v.value)
                                   && forall j :: 0 <= j < k ==> params[j].0 != name
  {
    match First(params, (p: (string, string)) => p.0 == name)
    case None => None
    case Some(k) => Some(params[k].1)
  }

  /** The server's `req.query` for a query string. */
  function ParseQuery(params: seq<(string, string)>): ListingQuery {
    ListingQuery(Param(params, "category"), Param(params, "status"), Param(params, "userId"))
  }

  /** The filters that take effect: the empty ones dropped. */
  function Supplied(filters: ListingQuery): (q: ListingQuery)
    ensures forall l :: MatchesQuery(q, l) <==> MatchesQuery(filters, l)
  {
    ListingQuery(NullIfEmpty(filters.category), NullIfEmpty(filters.status), NullIfEmpty(filters.userId))
  }

  /** When every pair named `name` lies in the middle piece `b`, the server
      reads `b`'s value, or nothing when `b` is empty. */
  lemma ParamOnlyIn(a: seq<(string, string)>, b: seq<(string, string)>, c: seq<(string, string)>,
                    name: string)
    requires forall e :: e in a ==> e.0 != name
    requires forall e :: e in b ==> e.0 == name
    requires forall e :: e in c ==> e.0 != name
    ensures Param(a + b + c, name) == if b == [] then None else Some(b[0].1)
  {
    var params := a + b + c;
    assert forall i :: 0 <= i < |a| ==> params[i] == a[i] && a[i] in a;
    if b != [] {
      assert params[|a|] == b[0] && b[0] in b;
    } else {
      assert forall i :: 0 <= i < |params| ==> params[i] in params;
    }
  }

  /** The server reads back exactly the filters the client supplied: each one
      present and not empty, and nothing else. */
  lemma QueryRoundTrip(filters: ListingQuery)
    ensures ParseQuery(QueryParams(filters)) == Supplied(filters)
  {
    var c := OptionalParam("category", filters.category);
    var s := OptionalParam("status", filters.status);
    var u := OptionalParam("userId", filters.userId);
    assert QueryParams(filters) == [] + c + (s + u);
    ParamOnlyIn([], c, s + u, "category");
    ParamOnlyIn(c, s, u, "status");
    assert QueryParams(filters) == (c + s) + u + [];
    ParamOnlyIn(c + s, u, [], "userId");
  }

  // ---------------------------------------------------------------------------
  // createListing: the form fields
  // ---------------------------------------------------------------------------

  /** `CreateListingData`; `image` is the attached file's name. */
  datatype CreateListingData = CreateListingData(
    title: string,
    description: string,
    category: string,
    condition: string,
    kind: Option<string>,
    size: Option<string>,
    tags: Option<string>,
    location: Option<string>,
    points: Option<int>,
    image: Option<string>)

  /** A form entry's value: text, a number sent as its decimal text, or a file. */
  datatype FormValue = Text(text: string) | Number(n: int) | File(filename: string)

  /** The four fields `createListing` always sends. */
  function Required(data: CreateListingData): (form: seq<(string, FormValue)>)
    ensures forall e :: e in form ==> e.0 in ["title", "description", "category", "condition"]
  {
    [("title", Text(data.title)), ("description", Text(data.description)),
     ("category", Text(data.category)), ("condition", Text(data.condition))]
  }

  /** `if (v) formData.append(name, v)` for a text field. */
  function OptionalText(name: string, v: Option<string>): (form: seq<(string, FormValue)>)
    ensures forall e :: e in form ==> e.0 == name
    ensures |form| == 1 <==> Truthy(v)
    ensures |form| <= 1
  {
    if Truthy(v) then [(name, Text(v.value))] else []
  }

  /** `if (data.points) formData.append('points', data.points.toString())`. */
  function OptionalPoints(points: Option<int>): (form: seq<(string, FormValue)>)
    ensures forall e :: e in form ==> e.0 == "points"
    ensures form != [] <==> points.Some? && points.value != 0
    ensures form != [] ==> form == [("points", Number(points.value))]
  {
    if points.Some? && points.value != 0 then [("points", Number(points.value))] else []
  }

  /** `if (data.image) formData.append('image', data.image)`. */
  function OptionalImage(image: Option<string>): (form: seq<(string, FormValue)>)
    ensures forall e :: e in form ==> e.0 == "image"
    ensures form != [] <==> image.Some?
  {
    if image.Some? then [("image", File(image.value))] else []
  }

  /** Everything before the points entry. */
  function TextFields(data: CreateListingData): (form: seq<(string, FormValue)>)
    ensures forall e :: e in form ==> e.0 != "points" && e.0 != "image"
  {
    Required(data) + OptionalText("type", data.kind) + OptionalText("size", data.size)
    + OptionalText("tags", data.tags) + OptionalText("location", data.location)
  }

  function FormFields(data: CreateListingData): seq<(string, FormValue)> {
    TextFields(data) + OptionalPoints(data.points) + OptionalImage(data.image)
  }

  /** The four required fields always, then each optional one only when truthy. */
  method BuildFormFields(data: CreateListingData) returns (form: seq<(string, FormValue)>)
    ensures form == FormFields(data)
  {
    form := [("title", Text(data.title)), ("description", Text(data.description)),
             ("category", Text(data.category)), ("condition", Text(data.condition))];
    if Truthy(data.kind) { form := form + [("type", Text(data.kind.value))]; }
    assert form == Required(data) + OptionalText("type", data.kind);
    if Truthy(data.size) { form := form + [("size", Text(data.size.value))]; }
    assert form == Required(data) + OptionalText("type", data.kind) + OptionalText("size", data.size);
    if Truthy(data.tags) { form := form + [("tags", Text(data.tags.value))]; }
    assert form == Required(data) + OptionalText("type", data.kind) + OptionalText("size", data.size)
                   + OptionalText("tags", data.tags);
    if Truthy(data.location) { form := form + [("location", Text(data.location.value))]; }
    assert form == TextFields(data);
    if data.points.Some? && data.points.value != 0 { form := form + [("points", Number(data.points.value))]; }
    assert form == TextFields(data) + OptionalPoints(data.points);
    if data.image.Some? { form := form + [("image", File(data.image.value))]; }
  }

  predicate HasField(form: seq<(string, FormValue)>, name: string) {
    exists k :: 0 <= k < |form| && form[k].0 == name
  }

  /** The entry named `name`, if any. */
  function Field(form: seq<(string, FormValue)>, name: string): (v: Option<FormValue>)
    ensures v.Some? <==> HasField(form, name)
    ensures v.Some? ==> exists k :: 0 <= k < |form| && form[k] == (name, v.value)
                                   && forall j :: 0 <= j < k ==> form[j].0 != name
  {
    match First(form, (e: (string, FormValue)) => e.0 == name)
    case None => None
    case Some(k) => Some(form[k].1)
  }

  /** When every entry named `name` lies in the middle piece `b`, which holds
      at most one entry, the form has that field exactly when `b` is not empty,
      and its value is `b`'s. */
  lemma {:induction false} FieldOnlyIn(a: seq<(string, FormValue)>, b: seq<(string, FormValue)>,
                                       c: seq<(string, FormValue)>, name: string)
    requires forall e :: e in a ==> e.0 != name
    requires forall e :: e in b ==> e.0 == name
    requires forall e :: e in c ==> e.0 != name
    ensures HasField(a + b + c, name) <==> b != []
    ensures Field(a + b + c, name) == if b == [] then None else Some(b[0].1)
  {
    var form := a + b + c;
    assert forall i :: 0 <= i < |a| ==> form[i] == a[i] && a[i] in a;
    if b != [] {
      assert form[|a|] == b[0] && b[0] in b;
    } else {
      assert forall i :: 0 <= i < |form| ==> form[i] in form;
    }
  }

  /** The four required fields are always sent, first and in order. */
  lemma RequiredFieldsSent(data: CreateListingData)
    ensures |FormFields(data)| >= 4
    ensures FormFields(data)[..4] == Required(data)
  {
  }

  /** `points` is sent exactly when it is present and not zero, with its value. */
  lemma PointsSentIffNonZero(data: CreateListingData)
    ensures HasField(FormFields(data), "points") <==> data.points.Some? && data.points.value != 0
    ensures PointsSent(FormFields(data)) == if data.points.Some? && data.points.value != 0 then data.points else None
  {
    FieldOnlyIn(TextFields(data), OptionalPoints(data.points), OptionalImage(data.image), "points");
  }

  /** The image is sent exactly when one is attached. */
  lemma ImageSentIffAttached(data: CreateListingData)
    ensures HasField(FormFields(data), "image") <==> data.image.Some?
  {
    var a := TextFields(data) + OptionalPoints(data.points);
    assert FormFields(data) == a + OptionalImage(data.image) + [];
    FieldOnlyIn(a, OptionalImage(data.image), [], "image");
  }

  /** An optional text field, here the location, is sent exactly when it is not empty. */
  lemma LocationSentIffNotEmpty(data: CreateListingData)
    ensures HasField(FormFields(data), "location") <==> Truthy(data.location)
  {
    var a := Required(data) + OptionalText("type", data.kind) + OptionalText("size", data.size)
             + OptionalText("tags", data.tags);
    var c := OptionalPoints(data.points) + OptionalImage(data.image);
    assert FormFields(data) == a + OptionalText("location", data.location) + c;
    FieldOnlyIn(a, OptionalText("location", data.location), c, "location");
  }

  /** The server's `points` field as it reads the form. */
  function PointsSent(form: seq<(string, FormValue)>): Option<int> {
    match Field(form, "points")
    case Some(Number(n)) => Some(n)
    case _ => None
  }

  /** Client and server agree on a listing's points: the amount the user typed,
      or 10 when it was left out or was 0 (the client drops 0 and the server
      fills the gap). */
  lemma CreatedListingPoints(data: CreateListingData)
    ensures DefaultPoints(PointsSent(FormFields(data))) == DefaultPoints(data.points)
  {
    PointsSentIffNonZero(data);
  }

  // ---------------------------------------------------------------------------
  // Reads and their fallbacks
  // ---------------------------------------------------------------------------

  /** `getAllListings`, `getUserListings`: `[]` when the request fails. */
  function ListingsOrEmpty(r: ApiResult<seq<Listing>>): (v: seq<Listing>)
    ensures r.Failure? ==> v == []
    ensures r.Success? ==> v == r.data
  {
    DataOr(r, [])
  }

  /** `getListingById`: null when the request fails. */
  function ListingOrNull(r: ApiResult<Listing>): (v: Option<Listing>)
    ensures v.Some? <==> r.Success?
    ensures v.Some? ==> v.value == r.data
  {
    DataOr(if r.Success? then Success(Some(r.data)) else Failure(r.error), None)
  }

  /** `updateListing`, `deleteListing`: whether the request went through. */
  function Succeeded<T>(r: ApiResult<T>): (ok: bool)
    ensures ok <==> r.Success?
  {
    r.Success?
  }

  /** `createListing`: the created listing, or the request's error rethrown. */
  function CreatedOrRethrow(r: ApiResult<Created>): (v: ApiResult<ListingSummary>)
    ensures v.Success? <==> r.Success?
    ensures v.Success? ==> v.data == r.data.listing
    ensures v.Failure? ==> v.error == r.error
  {
    if r.Success? then Success(r.data.listing) else Failure(r.error)
  }

  /** `getAllListings(filters)` against the server's handler: exactly the
      listings that match the filters, newest first; `[]` when the server
      answers an error. */
  lemma ClientListingsMatchFilters(listings: seq<Listing>, filters: ListingQuery, clock: nat)
    requires Chronological(listings, ListingTime, clock)
    ensures var got := ListingsOrEmpty(Delivered(Ok(200, GetAllListings(listings, ParseQuery(QueryParams(filters))))));
            && (forall l :: l in got <==> l in listings && MatchesQuery(filters, l))
            && Descending(got, ListingTime)
    ensures ListingsOrEmpty(Delivered<seq<Listing>>(Fail(500, ServerError))) == []
  {
    QueryRoundTrip(filters);
    AllListingsNewestFirst(listings, Supplied(filters), clock);
  }

  /** `getUserListings` against the server's handler: exactly that owner's listings. */
  lemma ClientUserListingsRead(listings: seq<Listing>, userId: Id)
    ensures forall l :: l in ListingsOrEmpty(Delivered(Ok(200, GetUserListings(listings, userId))))
                        <==> l in listings && l.userId == userId
  {
  }

  /** `getListingById` against the server's handler: a listing with that id
      exactly when one exists, otherwise null. */
  lemma ClientListingById(listings: seq<Listing>, id: Id)
    ensures ListingOrNull(Delivered(GetListingById(listings, id))).Some?
            <==> exists k :: 0 <= k < |listings| && listings[k].id == id
    ensures ListingOrNull(Delivered(GetListingById(listings, id))).Some? ==>
              && ListingOrNull(Delivered(GetListingById(listings, id))).value in listings
              && ListingOrNull(Delivered(GetListingById(listings, id))).value.id == id
  {
  }

  /** `updateListing`, `deleteListing`: against replies that are 200 on success
      and an error status otherwise (as `UpdateListing` and `DeleteListing`
      answer), the client reports true exactly for the server's successes. */
  lemma ClientWriteOutcome(reply: Reply<string>)
    requires reply.Ok? ==> reply.status == 200
    requires reply.Fail? ==> reply.status >= 400
    ensures Succeeded(Delivered(reply)) <==> reply.Ok?
  {
  }

  /** `createListing` against the server's 201 or error reply: the created
      listing on success, otherwise the server's error rethrown. */
  lemma ClientCreateOutcome(reply: Reply<Created>)
    requires reply.Ok? ==> reply.status == 201
    requires reply.Fail? ==> reply.status >= 400
    ensures CreatedOrRethrow(Delivered(reply)).Success? <==> reply.Ok?
    ensures reply.Ok? ==> CreatedOrRethrow(Delivered(reply)).data == reply.body.listing
    ensures reply.Fail? ==> CreatedOrRethrow(Delivered(reply)).error == reply.error
  {
  }
}
