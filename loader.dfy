/** The record loader: unwrapping the optional envelope around the parsed
    JSON document, the shape of a vouch record, and the basic statistics over
    a list of records (analysis/src/loader.py). */
module Loader {
  import opened Common

  /** A parsed JSON document. */
  datatype Json =
    | JNull
    | JBool(b: bool)
    | JNum(n: int)
    | JStr(s: string)
    | JArr(items: seq<Json>)
    | JObj(fields: map<string, Json>)

  /** If the document is an object holding `key`, the value under that key;
      otherwise the document itself. */
  function Unwrap(data: Json, key: string): (r: Json)
    ensures data.JObj? && key in data.fields ==> r == data.fields[key]
    ensures !(data.JObj? && key in data.fields) ==> r == data
  {
    if data.JObj? && key in data.fields then data.fields[key] else data
  }

  /** `load_vouches` after the file has been parsed. */
  function LoadVouches(data: Json): Json {
    Unwrap(data, "vouches")
  }

  /** `load_markets` after the file has been parsed. */
  function LoadMarkets(data: Json): Json {
    Unwrap(data, "markets")
  }

  /** Wrapping a list in a `{"vouches": ...}` envelope and loading it gives the list back. */
  lemma VouchesEnvelopeRoundTrip(list: Json, extra: map<string, Json>)
    ensures LoadVouches(JObj(extra["vouches" := list])) == list
  {
  }

  /** A bare list is loaded unchanged, by either loader. */
  lemma BareListUnchanged(items: seq<Json>)
    ensures LoadVouches(JArr(items)) == JArr(items)
    ensures LoadMarkets(JArr(items)) == JArr(items)
  {
  }

  /** `load_markets` treats a `"markets"` envelope exactly as `load_vouches`
      treats a `"vouches"` envelope. */
  lemma MarketsEnvelopeRoundTrip(list: Json, extra: map<string, Json>)
    ensures LoadMarkets(JObj(extra["markets" := list])) == list
  {
  }

  /** The user object attached to a record (`authorUser` / `subjectUser`),
      present only when the record carries a non-empty one. */
  datatype User = User(score: Option<int>, username: Option<string>)

  /** A raw timestamp as found in a record: epoch seconds/milliseconds or text. */
  datatype Stamp = EpochStamp(n: int) | TextStamp(text: string)

  /** One vouch record. `balance` is the stake in wei; the fields that a
      record may lack are options. */
  datatype Vouch = Vouch(
    author: int,
    subject: int,
    balance: Option<int>,
    staked: Option<bool>,
    archived: Option<bool>,
    authorUser: Option<User>,
    subjectUser: Option<User>,
    createdAt: Option<Stamp>,
    timestamp: Option<Stamp>,
    vouchedAt: Option<Stamp>)

  function Authors(vs: seq<Vouch>): set<int> {
    set v | v in vs :: v.author
  }

  function Subjects(vs: seq<Vouch>): set<int> {
    set v | v in vs :: v.subject
  }

  datatype VouchStats = VouchStats(
    totalVouches: nat,
    uniqueVouchers: nat,
    uniqueSubjects: nat,
    uniqueProfiles: nat)

  /** `get_vouch_stats`. */
  function GetVouchStats(vs: seq<Vouch>): (r: VouchStats)
    ensures r.totalVouches == |vs|
    ensures r.uniqueVouchers == |Authors(vs)| && r.uniqueSubjects == |Subjects(vs)|
    ensures r.uniqueProfiles == |Authors(vs) + Subjects(vs)|
    ensures r.uniqueVouchers <= r.totalVouches && r.uniqueSubjects <= r.totalVouches
    ensures r.uniqueVouchers <= r.uniqueProfiles && r.uniqueSubjects <= r.uniqueProfiles
    ensures r.uniqueProfiles <= r.uniqueVouchers + r.uniqueSubjects
    ensures vs == [] ==> r == VouchStats(0, 0, 0, 0)
  {
    var authors := Authors(vs);
    var subjects := Subjects(vs);
    AuthorsBound(vs);
    SubjectsBound(vs);
    SubsetCard(authors, authors + subjects);
    SubsetCard(subjects, authors + subjects);
    VouchStats(|vs|, |authors|, |subjects|, |authors + subjects|)
  }

  lemma {:induction false} AuthorsBound(vs: seq<Vouch>)
    ensures |Authors(vs)| <= |vs|
  {
    if vs != [] {
      var init := vs[..|vs| - 1];
      AuthorsBound(init);
      assert vs == init + [vs[|vs| - 1]];
      assert Authors(vs) == Authors(init) + {vs[|vs| - 1].author};
    }
  }

  lemma {:induction false} SubjectsBound(vs: seq<Vouch>)
    ensures |Subjects(vs)| <= |vs|
  {
    if vs != [] {
      var init := vs[..|vs| - 1];
      SubjectsBound(init);
      assert vs == init + [vs[|vs| - 1]];
      assert Subjects(vs) == Subjects(init) + {vs[|vs| - 1].subject};
    }
  }
}
