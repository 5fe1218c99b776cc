/** The inbox route of the server: it lists the inbox, fetches each listed
    message in full, turns each into a record (body from the MIME tree,
    subject and sender from the headers), drops the messages whose handling
    failed and answers with the rest, newest first. The mail service, the
    session, base64 decoding, the random colour and the date formatting are
    parameters. */
module GmailRoute {
  import opened Mail
  import opened Text

  datatype Header = Header(name: string, value: string)

  /** A node of the message's MIME tree. `data` is the part's base64 body
      data, if any; `parts` are its children, where an empty list behaves as
      an absent one. Only the root's `headers` are consulted. */
  datatype Part = Part(mimeType: string, headers: Option<seq<Header>>, data: Option<string>, parts: seq<Part>)

  /** A full message as the mail service returns it. `internalDate` is its
      epoch-millisecond date, already parsed to an integer. */
  datatype Detail = Detail(payload: Option<Part>, internalDate: int, snippet: string)

  /** The outcome of fetching one listed message: the call failed, or it gave
      the detail, together with the colour drawn for the sender. */
  datatype Fetch = FetchFailed | Fetched(detail: Detail, color: string)

  /** The outcome of listing the inbox: the call failed with a message, or it
      gave the ids of the listed messages, if any. */
  datatype Listing = ListFailed(message: string) | Listed(messages: Option<seq<string>>)

  datatype InboxResponse = Unauthorized | ServerError(message: string) | Emails(emails: seq<Email>)

  // ---------------------------------------------------------------------
  // The body of a message

  /** `x.body && x.body.data`: the data is present and not empty. */
  predicate HasData(data: Option<string>) {
    data.Some? && data.value != ""
  }

  /** The index of the first part at or after `i` whose mime type is exactly
      `mime`, or `|parts|` when there is none. */
  function MimeIndex(parts: seq<Part>, mime: string, i: nat): (k: nat)
    requires i <= |parts|
    ensures i <= k <= |parts|
    ensures forall j :: i <= j < k ==> parts[j].mimeType != mime
    ensures k < |parts| ==> parts[k].mimeType == mime
    decreases |parts| - i
  {
    if i == |parts| || parts[i].mimeType == mime then i else MimeIndex(parts, mime, i + 1)
  }

  /** `parts.find(p => p.mimeType === mime)`. */
  function FindMime(parts: seq<Part>, mime: string): Option<Part> {
    var k := MimeIndex(parts, mime, 0);
    if k < |parts| then Some(parts[k]) else None
  }

  /** The decoded data of `p`, if it is a part with data. */
  function DataOf(p: Option<Part>, decode: string -> string): Option<string> {
    if p.Some? && HasData(p.value.data) then Some(decode(p.value.data.value)) else None
  }

  /** `getBody` on a present part: its own data if it has some, else the first
      `text/html` child with data, else the first `text/plain` child with data,
      else the first non-empty result of the children in order, else "". */
  function PartBody(p: Part, decode: string -> string): string
    decreases p, 1
  {
    if HasData(p.data) then decode(p.data.value)
    else
      var html := DataOf(FindMime(p.parts, "text/html"), decode);
      if html.Some? then html.value
      else
        var text := DataOf(FindMime(p.parts, "text/plain"), decode);
        if text.Some? then text.value
        else FirstNonEmpty(p, 0, decode)
  }

  /** The loop over the children from index `i`: the first child whose body is
      not empty gives the result. */
  function FirstNonEmpty(p: Part, i: nat, decode: string -> string): (r: string)
    requires i <= |p.parts|
    decreases p, 0, |p.parts| - i
  {
    if i == |p.parts| then ""
    else
      var deep := PartBody(p.parts[i], decode);
      if deep != "" then deep else FirstNonEmpty(p, i + 1, decode)
  }

  /** `getBody`: a missing payload has the empty body. */
  function GetBody(payload: Option<Part>, decode: string -> string): string {
    if payload.None? then "" else PartBody(payload.value, decode)
  }

  /** `p` or one of its descendants holds the data `d`. */
  ghost predicate HoldsData(p: Part, d: string)
    decreases p
  {
    (HasData(p.data) && p.data.value == d) || exists i :: 0 <= i < |p.parts| && HoldsData(p.parts[i], d)
  }

  /** The first child with mime type `mime` is one of the children. */
  lemma FindMimeIsChild(p: Part, mime: string, d: string)
    requires FindMime(p.parts, mime).Some?
    requires HasData(FindMime(p.parts, mime).value.data) && FindMime(p.parts, mime).value.data.value == d
    ensures HoldsData(p, d)
  {
    var i := MimeIndex(p.parts, mime, 0);
    assert HoldsData(p.parts[i], d);
  }

  /** The body is empty or the decoding of data held somewhere in the tree. */
  lemma {:induction false} PartBodyProvenance(p: Part, decode: string -> string)
    ensures PartBody(p, decode) == "" || exists d :: HoldsData(p, d) && PartBody(p, decode) == decode(d)
    decreases p, 1
  {
    if !HasData(p.data) {
      var html := FindMime(p.parts, "text/html");
      var text := FindMime(p.parts, "text/plain");
      if DataOf(html, decode).Some? {
        FindMimeIsChild(p, "text/html", html.value.data.value);
      } else if DataOf(text, decode).Some? {
        FindMimeIsChild(p, "text/plain", text.value.data.value);
      } else {
        FirstNonEmptyProvenance(p, 0, decode);
      }
    } else {
      assert HoldsData(p, p.data.value);
    }
  }

  lemma {:induction false} FirstNonEmptyProvenance(p: Part, i: nat, decode: string -> string)
    requires i <= |p.parts|
    ensures FirstNonEmpty(p, i, decode) == "" || exists d :: HoldsData(p, d) && FirstNonEmpty(p, i, decode) == decode(d)
    decreases p, 0, |p.parts| - i
  {
    if i < |p.parts| {
      var c := p.parts[i];
      if PartBody(c, decode) != "" {
        PartBodyProvenance(c, decode);
        var d :| HoldsData(c, d) && PartBody(c, decode) == decode(d);
        assert HoldsData(p, d);
      } else {
        FirstNonEmptyProvenance(p, i + 1, decode);
      }
    }
  }

  /** The loop from `i` gives the body of the first child, in order, whose
      body is not empty, and "" exactly when every child's body from `i` is
      empty; `j` is that child's index, `|p.parts|` when there is none. */
  lemma {:induction false} FirstNonEmptyIsFirst(p: Part, i: nat, decode: string -> string) returns (j: nat)
    requires i <= |p.parts|
    ensures i <= j <= |p.parts|
    ensures forall k :: i <= k < j ==> PartBody(p.parts[k], decode) == ""
    ensures j < |p.parts| ==> PartBody(p.parts[j], decode) != "" && FirstNonEmpty(p, i, decode) == PartBody(p.parts[j], decode)
    ensures j == |p.parts| ==> FirstNonEmpty(p, i, decode) == ""
    decreases |p.parts| - i
  {
    if i == |p.parts| || PartBody(p.parts[i], decode) != "" {
      j := i;
    } else {
      j := FirstNonEmptyIsFirst(p, i + 1, decode);
    }
  }

  /** The body is taken from the message: it is empty or the decoding of
      some part's data. */
  lemma GetBodyProvenance(payload: Option<Part>, decode: string -> string)
    ensures GetBody(payload, decode) == ""
         || (payload.Some? && exists d :: HoldsData(payload.value, d) && GetBody(payload, decode) == decode(d))
  {
    if payload.Some? {
      PartBodyProvenance(payload.value, decode);
    }
  }

  /** When decoding never turns data into the empty text, the body search
      finds something exactly when some part of the tree has data. */
  lemma {:induction false} PartBodyFindsData(p: Part, decode: string -> string)
    requires forall d :: d != "" ==> decode(d) != ""
    ensures PartBody(p, decode) != "" <==> exists d :: HoldsData(p, d)
    decreases p, 1
  {
    PartBodyProvenance(p, decode);
    if !HasData(p.data) {
      var html := FindMime(p.parts, "text/html");
      var text := FindMime(p.parts, "text/plain");
      if DataOf(html, decode).Some? {
        assert html.value.data.value != "";
      } else if DataOf(text, decode).Some? {
        assert text.value.data.value != "";
      } else {
        FirstNonEmptyFindsData(p, 0, decode);
        if exists d :: HoldsData(p, d) {
          var d :| HoldsData(p, d);
          var j :| 0 <= j < |p.parts| && HoldsData(p.parts[j], d);
          assert exists d :: HoldsData(p.parts[j], d);
        }
      }
    } else {
      assert decode(p.data.value) != "";
    }
  }

  lemma {:induction false} FirstNonEmptyFindsData(p: Part, i: nat, decode: string -> string)
    requires i <= |p.parts|
    requires forall d :: d != "" ==> decode(d) != ""
    ensures FirstNonEmpty(p, i, decode) != "" <==> exists j, d :: i <= j < |p.parts| && HoldsData(p.parts[j], d)
    decreases p, 0, |p.parts| - i
  {
    if i < |p.parts| {
      PartBodyFindsData(p.parts[i], decode);
      FirstNonEmptyFindsData(p, i + 1, decode);
      if exists j, d :: i <= j < |p.parts| && HoldsData(p.parts[j], d) {
        var j, d :| i <= j < |p.parts| && HoldsData(p.parts[j], d);
        if j > i {
          assert exists j, d :: i + 1 <= j < |p.parts| && HoldsData(p.parts[j], d);
        } else {
          assert exists d :: HoldsData(p.parts[i], d);
        }
      }
    }
  }

  /** A part with data of its own is read without looking at its children. */
  lemma OwnDataFirst(p: Part, decode: string -> string)
    requires HasData(p.data)
    ensures GetBody(Some(p), decode) == decode(p.data.value)
  {
  }

  /** Without data of its own, the first `text/html` child with data is preferred. */
  lemma HtmlChildPreferred(p: Part, i: nat, decode: string -> string)
    requires !HasData(p.data)
    requires i < |p.parts| && p.parts[i].mimeType == "text/html" && HasData(p.parts[i].data)
    requires forall j :: 0 <= j < i ==> p.parts[j].mimeType != "text/html"
    ensures GetBody(Some(p), decode) == decode(p.parts[i].data.value)
  {
    assert MimeIndex(p.parts, "text/html", 0) == i;
  }

  /** Without own data and without a usable `text/html` child, the first
      `text/plain` child with data is used. */
  lemma PlainChildNext(p: Part, i: nat, decode: string -> string)
    requires !HasData(p.data)
    requires DataOf(FindMime(p.parts, "text/html"), decode).None?
    requires i < |p.parts| && p.parts[i].mimeType == "text/plain" && HasData(p.parts[i].data)
    requires forall j :: 0 <= j < i ==> p.parts[j].mimeType != "text/plain"
    ensures GetBody(Some(p), decode) == decode(p.parts[i].data.value)
  {
    assert MimeIndex(p.parts, "text/plain", 0) == i;
  }

  // ---------------------------------------------------------------------
  // Headers and the From header

  /** `getHeader`: the value of the first header named exactly `name`, else "". */
  function GetHeader(headers: seq<Header>, name: string): (r: string)
    ensures (forall i :: 0 <= i < |headers| ==> headers[i].name != name) ==> r == ""
    ensures forall i :: (0 <= i < |headers| && headers[i].name == name
                         && (forall j :: 0 <= j < i ==> headers[j].name != name)) ==> r == headers[i].value
  {
    var k := HeaderIndex(headers, name, 0);
    if k == |headers| then "" else headers[k].value
  }

  /** `headers.find` by name from position `i`: the first index at or after
      `i` with that name, or `|headers|`. */
  function HeaderIndex(headers: seq<Header>, name: string, i: nat): (k: nat)
    requires i <= |headers|
    ensures i <= k <= |headers|
    ensures forall j :: i <= j < k ==> headers[j].name != name
    ensures k < |headers| ==> headers[k].name == name
    decreases |headers| - i
  {
    if i == |headers| || headers[i].name == name then i else HeaderIndex(headers, name, i + 1)
  }

  predicate IsNotLt(c: char) {
    c != '<'
  }

  predicate IsNotGt(c: char) {
    c != '>'
  }

  /** The sender's name: `/(^[^<]+)/` matches the non-empty run before the
      first `<` at the start; it is trimmed and cleared of `"`. Without a match
      (an empty header, or one that starts with `<`) the raw header is used. */
  function SenderName(from: string): string {
    var n := Span(from, 0, IsNotLt);
    if n >= 1 then RemoveAll(Trim(from[..n]), '"') else from
  }

  /** `/<([^>]+)>/` tried at `p`: the length of the address between `<` and
      the next `>`, when it is not empty. */
  function AngleAt(s: string, p: nat): (r: Option<nat>)
    requires p <= |s|
    ensures r.Some? ==> 1 <= r.value && p + 1 + r.value < |s|
  {
    if p < |s| && s[p] == '<' then
      var n := Span(s, p + 1, IsNotGt);
      if n >= 1 && p + 1 + n < |s| then Some(n) else None
    else None
  }

  /** The leftmost position at or after `from` where the address pattern matches. */
  function FirstAngle(s: string, from: nat): (r: Option<nat>)
    requires from <= |s|
    ensures r.Some? ==> from <= r.value <= |s| && AngleAt(s, r.value).Some?
    ensures r.Some? ==> forall q :: from <= q < r.value ==> AngleAt(s, q).None?
    ensures r.None? ==> forall q :: from <= q <= |s| ==> AngleAt(s, q).None?
    decreases |s| - from
  {
    if AngleAt(s, from).Some? then Some(from)
    else if from == |s| then None
    else FirstAngle(s, from + 1)
  }

  /** The sender's address: the text inside the first `<...>` with a non-empty inside, else "". */
  function SenderEmail(from: string): string {
    match FirstAngle(from, 0)
    case None => ""
    case Some(p) => from[p + 1..p + 1 + AngleAt(from, p).value]
  }

  /** The `From` form the split is written for, `Name <address>`. */
  function FormatFrom(name: string, address: string): string {
    name + " <" + address + ">"
  }

  /** A found address stands between `<` and `>` in the header and holds no `>`. */
  lemma SenderEmailSound(from: string)
    requires SenderEmail(from) != ""
    ensures var a := SenderEmail(from); '>' !in a && HasSubstring(from, "<" + a + ">")
  {
    var p := FirstAngle(from, 0).value;
    AngleAtSound(from, p);
  }

  /** Where the address pattern matches, the header holds `<`, the address and `>`. */
  lemma AngleAtSound(s: string, p: nat)
    requires p <= |s| && AngleAt(s, p).Some?
    ensures var a := s[p + 1..p + 1 + AngleAt(s, p).value];
            '>' !in a && OccursAt(s, "<" + a + ">", p)
  {
    var n := AngleAt(s, p).value;
    var a := s[p + 1..p + 1 + n];
    assert s[p] == '<' && s[p + 1 + n] == '>';
    assert '>' !in a by {
      forall k | 0 <= k < n ensures a[k] != '>' {
        assert a[k] == s[p + 1 + k];
      }
    }
    assert s[p..p + n + 2] == "<" + a + ">" by {
      var w := "<" + a + ">";
      forall k | 0 <= k < n + 2 ensures s[p..p + n + 2][k] == w[k] {
        if 0 < k < n + 1 {
          assert w[k] == a[k - 1];
        }
      }
    }
  }

  /** Every `<a>` with a non-empty inside without `>` is matched where it
      stands, and the match is `a`. */
  lemma AngleAtComplete(s: string, p: nat, a: string)
    requires a != [] && '>' !in a && OccursAt(s, "<" + a + ">", p)
    ensures AngleAt(s, p) == Some(|a|)
  {
    assert s[p..p + |a| + 2] == "<" + a + ">";
    forall k | p + 1 <= k < p + 1 + |a| ensures IsNotGt(s[k]) {
      assert s[k] == ("<" + a + ">")[k - p];
    }
    assert s[p + 1 + |a|] == ("<" + a + ">")[|a| + 1];
    SpanExact(s, p + 1, |a|, IsNotGt);
  }

  /** When `<a>` stands at `p` and the address pattern matches nowhere
      before `p`, the address is `a`. */
  lemma SenderEmailIsLeftmost(from: string, p: nat, a: string)
    requires a != [] && '>' !in a && OccursAt(from, "<" + a + ">", p)
    requires forall q :: 0 <= q < p ==> AngleAt(from, q).None?
    ensures SenderEmail(from) == a
  {
    AngleAtComplete(from, p, a);
    assert FirstAngle(from, 0) == Some(p);
    var w := "<" + a + ">";
    forall k | 0 <= k < |a| ensures from[p + 1 + k] == a[k] {
      assert from[p + 1 + k] == w[k + 1];
    }
    assert from[p + 1..p + 1 + |a|] == a;
  }

  /** A name without `<` or `"` and without white space at its ends is
      recovered from `Name <address>`. */
  lemma NameOfFormatted(name: string, address: string)
    requires name != [] && '<' !in name && '"' !in name
    requires !IsJsSpace(name[0]) && !IsJsSpace(name[|name| - 1])
    ensures SenderName(FormatFrom(name, address)) == name
  {
    var s := FormatFrom(name, address);
    var m := |name|;
    assert s[m + 1] == '<';
    forall k | 0 <= k < m + 1 ensures IsNotLt(s[k]) {
      if k < m { assert s[k] == name[k]; }
    }
    SpanExact(s, 0, m + 1, IsNotLt);
    assert s[..m + 1] == name + " ";
    TrimOneTrailingSpace(name);
  }

  /** A quoted display name, `"Name" <address>`, gives the name without its
      quotes, for any name without `"` or `<`: white space inside the quotes
      is kept. */
  lemma QuotedNameOfFormatted(name: string, address: string)
    requires '<' !in name && '"' !in name
    ensures SenderName(FormatFrom("\"" + name + "\"", address)) == name
  {
    var q := "\"" + name + "\"";
    var s := FormatFrom(q, address);
    var m := |q|;
    assert s[m + 1] == '<';
    forall k | 0 <= k < m + 1 ensures IsNotLt(s[k]) {
      if 0 < k < m - 1 { assert s[k] == name[k - 1]; }
    }
    SpanExact(s, 0, m + 1, IsNotLt);
    assert s[..m + 1] == q + " ";
    TrimOneTrailingSpace(q);
    assert RemoveAll(q, '"') == name by {
      assert q == ['"'] + (name + ['"']);
      RemoveAllAppend(['"'], name + ['"'], '"');
      RemoveAllAppend(name, ['"'], '"');
    }
  }

  /** A non-empty address without `>` is recovered from `Name <address>`
      when the name holds no `<`. */
  lemma EmailOfFormatted(name: string, address: string)
    requires '<' !in name
    requires address != [] && '>' !in address
    ensures SenderEmail(FormatFrom(name, address)) == address
  {
    var s := FormatFrom(name, address);
    var m := |name|;
    assert AngleAt(s, m + 1) == Some(|address|) by {
      forall k | m + 2 <= k < m + 2 + |address| ensures IsNotGt(s[k]) {
        assert s[k] == address[k - m - 2];
      }
      assert s[m + 2 + |address|] == '>';
      SpanExact(s, m + 2, |address|, IsNotGt);
    }
    assert FirstAngle(s, 0) == Some(m + 1) by {
      forall q | 0 <= q < m + 1 ensures AngleAt(s, q).None? {
        if q < m { assert s[q] == name[q]; }
      }
    }
    assert s[m + 2..m + 2 + |address|] == address;
  }

  /** Trimming a name followed by one space gives the name. */
  lemma TrimOneTrailingSpace(name: string)
    requires name != [] && !IsJsSpace(name[0]) && !IsJsSpace(name[|name| - 1])
    ensures Trim(name + " ") == name
  {
    var s := name + " ";
    assert Span(s, 0, IsJsSpace) == 0;
    assert s[0..] == s;
    assert s[..|s| - 1] == name;
  }

  /** An empty header, or one that starts with `<`, is its own name. */
  lemma SenderNameFallback(from: string)
    requires from == [] || from[0] == '<'
    ensures SenderName(from) == from
  {
  }

  /** A header without `<` has no address. */
  lemma NoAngleNoEmail(from: string)
    requires '<' !in from
    ensures SenderEmail(from) == ""
  {
  }

  /** When the header starts with a character other than `<`, the name holds no `"` and no `<`. */
  lemma SenderNameClean(from: string)
    requires from != [] && from[0] != '<'
    ensures '"' !in SenderName(from) && '<' !in SenderName(from)
  {
    var n := Span(from, 0, IsNotLt);
    var head := from[..n];
    assert '<' !in head by {
      forall k | 0 <= k < n ensures head[k] != '<' { assert head[k] == from[k]; }
    }
    TrimAddsNothing(head, '<');
  }

  // ---------------------------------------------------------------------
  // Records and the response

  /** The record built from one fetched message, or `None` when building it
      throws: the detail call failed, or the payload or its headers are missing. */
  function MakeRecord(id: string, fetch: Fetch, decode: string -> string, formatDate: int -> string): (r: Option<Email>)
    ensures r.Some? <==> fetch.Fetched? && fetch.detail.payload.Some? && fetch.detail.payload.value.headers.Some?
    ensures r.Some? ==> var e := r.value;
      && e.id == id && !e.isPinned && !e.hasSummary && e.summary.None?
      && e.timestamp == fetch.detail.internalDate
      && e.subject == GetHeader(fetch.detail.payload.value.headers.value, "Subject")
      && (var from := GetHeader(fetch.detail.payload.value.headers.value, "From");
          e.sender == Sender(SenderName(from), SenderEmail(from), fetch.color))
      && e.snippet == fetch.detail.snippet
      && e.body == GetBody(fetch.detail.payload, decode)
      && e.date == formatDate(fetch.detail.internalDate)
  {
    match fetch
    case FetchFailed => None
    case Fetched(detail, color) =>
      if detail.payload.None? || detail.payload.value.headers.None? then None
      else
        var headers := detail.payload.value.headers.value;
        var from := GetHeader(headers, "From");
        Some(Email(
          id,
          Sender(SenderName(from), SenderEmail(from), color),
          GetHeader(headers, "Subject"),
          detail.snippet,
          GetBody(detail.payload, decode),
          formatDate(detail.internalDate),
          detail.internalDate,
          false,
          false,
          None))
  }

  /** The records of the messages whose handling succeeded, in list order. */
  function Survivors(ids: seq<string>, fetches: seq<Fetch>, decode: string -> string, formatDate: int -> string): (r: seq<Email>)
    requires |fetches| == |ids|
    ensures |r| <= |ids|
    ensures forall e :: e in r ==> exists i :: 0 <= i < |ids| && MakeRecord(ids[i], fetches[i], decode, formatDate) == Some(e)
    ensures forall i :: 0 <= i < |ids| && MakeRecord(ids[i], fetches[i], decode, formatDate).Some? ==>
              MakeRecord(ids[i], fetches[i], decode, formatDate).value in r
  {
    if ids == [] then []
    else
      var rest := Survivors(ids[1..], fetches[1..], decode, formatDate);
      var head := MakeRecord(ids[0], fetches[0], decode, formatDate);
      assert forall i :: 1 <= i < |ids| ==> ids[i] == ids[1..][i - 1] && fetches[i] == fetches[1..][i - 1];
      if head.Some? then [head.value] + rest else rest
  }

  /** Dropping the failed messages keeps the others in listing order, one
      record per message: it distributes over concatenation. */
  lemma {:induction false} SurvivorsAppend(ids1: seq<string>, ids2: seq<string>, fs1: seq<Fetch>, fs2: seq<Fetch>,
                                           decode: string -> string, formatDate: int -> string)
    requires |fs1| == |ids1| && |fs2| == |ids2|
    ensures Survivors(ids1 + ids2, fs1 + fs2, decode, formatDate)
         == Survivors(ids1, fs1, decode, formatDate) + Survivors(ids2, fs2, decode, formatDate)
  {
    if ids1 == [] {
      assert ids1 + ids2 == ids2 && fs1 + fs2 == fs2;
    } else {
      assert (ids1 + ids2)[0] == ids1[0] && (fs1 + fs2)[0] == fs1[0];
      assert (ids1 + ids2)[1..] == ids1[1..] + ids2 && (fs1 + fs2)[1..] == fs1[1..] + fs2;
      SurvivorsAppend(ids1[1..], ids2, fs1[1..], fs2, decode, formatDate);
    }
  }

  /** One message gives its record when building it succeeds, and nothing otherwise. */
  lemma SurvivorsSingle(id: string, fetch: Fetch, decode: string -> string, formatDate: int -> string)
    ensures Survivors([id], [fetch], decode, formatDate)
         == if MakeRecord(id, fetch, decode, formatDate).Some? then [MakeRecord(id, fetch, decode, formatDate).value] else []
  {
  }

  /** `GET`: without an access token the answer is 401; a failed listing is a
      500 with the failure's message; no listed messages is an empty list;
      otherwise the successful records, newest first. The i-th element of
      `fetches` is the outcome of fetching the i-th listed id. */
  function ListInbox(hasToken: bool, listing: Listing, fetches: seq<Fetch>,
                     decode: string -> string, formatDate: int -> string): InboxResponse
    requires listing.Listed? && listing.messages.Some? ==> |fetches| == |listing.messages.value|
  {
    if !hasToken then Unauthorized
    else match listing
      case ListFailed(message) => ServerError(message)
      case Listed(None) => Emails([])
      case Listed(Some(ids)) => Emails(SortNewestFirst(Survivors(ids, fetches, decode, formatDate)))
  }

  /** What the route promises about a successful answer: newest first, every
      record freshly built from a listed message with the flags cleared, and
      every message whose handling succeeded present. */
  lemma ListInboxAnswer(listing: Listing, fetches: seq<Fetch>, decode: string -> string, formatDate: int -> string)
    requires listing.Listed? && listing.messages.Some? && |fetches| == |listing.messages.value|
    ensures var r := ListInbox(true, listing, fetches, decode, formatDate);
      && r.Emails?
      && NewestFirst(r.emails)
      && (forall e :: e in r.emails ==> !e.isPinned && !e.hasSummary && e.summary.None? && e.id in listing.messages.value)
      && (forall i :: 0 <= i < |fetches| && MakeRecord(listing.messages.value[i], fetches[i], decode, formatDate).Some? ==>
            MakeRecord(listing.messages.value[i], fetches[i], decode, formatDate).value in r.emails)
  {
    var ids := listing.messages.value;
    var s := Survivors(ids, fetches, decode, formatDate);
    var r := SortNewestFirst(s);
    forall e | e in r ensures e in s {
      assert e in multiset(r);
    }
    forall i | 0 <= i < |fetches| && MakeRecord(ids[i], fetches[i], decode, formatDate).Some?
      ensures MakeRecord(ids[i], fetches[i], decode, formatDate).value in r
    {
      assert MakeRecord(ids[i], fetches[i], decode, formatDate).value in multiset(s);
    }
  }

  /** The error answers. */
  lemma ListInboxErrors(listing: Listing, fetches: seq<Fetch>, decode: string -> string, formatDate: int -> string)
    requires listing.Listed? && listing.messages.Some? ==> |fetches| == |listing.messages.value|
    ensures ListInbox(false, listing, fetches, decode, formatDate) == Unauthorized
    ensures listing.ListFailed? ==> ListInbox(true, listing, fetches, decode, formatDate) == ServerError(listing.message)
    ensures listing == Listed(None) ==> ListInbox(true, listing, fetches, decode, formatDate) == Emails([])
  {
  }
}
