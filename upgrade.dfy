/** The upgrade selection rule (src/services/upgrade.js): from a listing of release
    documents, pick the newest `.json` document, parse its version out of a key named
    `product-date-version-hash.json`, and start a download when that version is above the
    installed one and above the one already being downloaded. Fetching, downloading and the
    file system are not modelled: the listing arrives as a parameter and a download is an
    object that records whether it is still listened to and whether it was destroyed. */
module Upgrade {
  import opened Wrappers
  import opened JsStrings


  /** `isHighVersion`: plain string order, not numeric order. */
  predicate IsHighVersion(current: string, next: string)
  {
    StrLess(current, next)
  }

  /** String order puts "0.10.0" below "0.9.0", so the source does not treat 0.10.0 as an
      upgrade of 0.9.0. */
  lemma VersionOrderIsTextual()
    ensures !IsHighVersion("0.9.0", "0.10.0") && IsHighVersion("0.10.0", "0.9.0")
  {
    assert "0.9.0"[1..] == ".9.0" && "0.10.0"[1..] == ".10.0";
    assert ".9.0"[1..] == "9.0" && ".10.0"[1..] == "10.0";
  }


  datatype Doc = Doc(key: string, lastModified: string)

  /** The `.json` documents of the listing, in listing order. */
  function JsonDocs(data: seq<Doc>): (docs: seq<Doc>)
    ensures forall d :: d in docs <==> d in data && EndsWith(d.key, ".json")
  {
    if data == [] then []
    else if EndsWith(data[0].key, ".json") then [data[0]] + JsonDocs(data[1..])
    else JsonDocs(data[1..])
  }

  /** The version in a document key: the third `-`-separated part of the key without its
      `.json` suffix, trimmed; none unless there are exactly four parts. */
  function VersionOf(key: string): Option<string>
    requires EndsWith(key, ".json")
  {
    var parts := Split(key[..|key| - 5], '-');
    if |parts| == 4 then Some(Trim(parts[2])) else None
  }

  /** The document name `product-date-version-hash.json`. */
  function KeyName(product: string, date: string, version: string, hash: string): (key: string)
    ensures EndsWith(key, ".json")
  {
    product + ['-'] + (date + ['-'] + (version + ['-'] + hash)) + ".json"
  }

  /** A key named `product-date-version-hash.json` yields its version. */
  lemma VersionOfNamedKey(product: string, date: string, version: string, hash: string)
    requires '-' !in product && '-' !in date && '-' !in version && '-' !in hash
    requires version != [] ==> !IsSpace(version[0]) && !IsSpace(version[|version| - 1])
    ensures VersionOf(KeyName(product, date, version, hash)) == Some(version)
  {
    var r2 := version + ['-'] + hash;
    var r1 := date + ['-'] + r2;
    var stem := product + ['-'] + r1;
    var key := KeyName(product, date, version, hash);
    assert key == stem + ".json";
    assert key[..|key| - 5] == stem;
    SplitPrefix(product, '-', r1);
    SplitPrefix(date, '-', r2);
    SplitPrefix(version, '-', hash);
    SplitNone(hash, '-');
    assert Split(stem, '-') == [product, date, version, hash];
    TrimUnchanged(version);
  }

  /** The source picks the first element after sorting with the comparator
      `(a, b) => a.LastModified < b.LastModified`. That comparator answers `true` or
      `false`, which the sort reads as 1 or 0 and never as a negative number. Under the
      TimSort of V8 7.0 and later (Node 11 and later) the whole listing is then one
      ascending run, so its order is kept and the first listed document is taken; this
      is the result modelled here. */
  function LatestAsWritten(docs: seq<Doc>): (d: Doc)
    requires docs != []
    ensures d == docs[0]
  {
    docs[0]
  }

  /** The most recently modified document, the first one among equals. */
  function Latest(docs: seq<Doc>): (d: Doc)
    requires docs != []
    ensures d in docs
  {
    if |docs| == 1 then docs[0]
    else
      var rest := Latest(docs[1..]);
      if StrLess(docs[0].lastModified, rest.lastModified) then rest else docs[0]
  }

  /** No document is more recent than the one `Latest` picks. */
  lemma {:induction false} LatestIsNewest(docs: seq<Doc>)
    requires docs != []
    ensures forall e :: e in docs ==> !StrLess(Latest(docs).lastModified, e.lastModified)
  {
    if |docs| == 1 {
      StrLessIrreflexive(docs[0].lastModified);
    } else {
      LatestIsNewest(docs[1..]);
      var rest := Latest(docs[1..]);
      var d := Latest(docs);
      forall e | e in docs
        ensures !StrLess(d.lastModified, e.lastModified)
      {
        if e == docs[0] {
          if StrLess(d.lastModified, e.lastModified) {
            if d == docs[0] {
              StrLessIrreflexive(d.lastModified);
            } else {
              StrLessTransitive(d.lastModified, e.lastModified, d.lastModified);
              StrLessIrreflexive(d.lastModified);
            }
          }
        } else {
          assert e in docs[1..];
          if d != rest {
            NotLessTransitive(d.lastModified, rest.lastModified, e.lastModified);
          }
        }
      }
    }
  }

  /** Prefixing both strings with the same text keeps their order. */
  lemma {:induction false} StrLessPrefix(p: string, a: string, b: string)
    requires StrLess(a, b)
    ensures StrLess(p + a, p + b)
  {
    if p == [] {
      assert p + a == a && p + b == b;
    } else {
      assert (p + a)[0] == p[0] == (p + b)[0];
      assert (p + a)[1..] == p[1..] + a && (p + b)[1..] == p[1..] + b;
      StrLessPrefix(p[1..], a, b);
    }
  }

  /** Listed oldest first, the source takes the older document. */
  lemma OldestFirstListing()
    ensures StrLess("2018-10-01", "2018-10-21")
    ensures LatestAsWritten([Doc("a-1-0.1.0-x.json", "2018-10-01"), Doc("a-1-0.2.0-y.json", "2018-10-21")]).lastModified == "2018-10-01"
    ensures Latest([Doc("a-1-0.1.0-x.json", "2018-10-01"), Doc("a-1-0.2.0-y.json", "2018-10-21")]).lastModified == "2018-10-21"
  {
    assert StrLess("01", "21");
    StrLessPrefix("2018-10-", "01", "21");
    assert "2018-10-" + "01" == "2018-10-01" && "2018-10-" + "21" == "2018-10-21";
    var docs := [Doc("a-1-0.1.0-x.json", "2018-10-01"), Doc("a-1-0.2.0-y.json", "2018-10-21")];
    assert docs[1..] == [docs[1]];
  }

  /** The outcome of the last fetch: its error flag and its data, if any. */
  datatype Fetched = Fetched(error: bool, data: Option<seq<Doc>>)

  /** The document and version a fetch offers, before comparing versions: none on a fetch
      error, on missing data, when no `.json` document is listed, or when the newest one's
      key does not have four parts. */
  function Offer(last: Fetched): (o: Option<(Doc, string)>)
  {
    if last.error || last.data.None? then None
    else
      var docs := JsonDocs(last.data.value);
      if docs == [] then None
      else
        var latest := Latest(docs);
        var v := VersionOf(latest.key);
        if v.None? then None else Some((latest, v.value))
  }

  /** What an offer is: the newest `.json` document of a successful fetch and the version
      its key names. */
  lemma OfferIsNewestJson(last: Fetched, d: Doc, v: string)
    requires Offer(last) == Some((d, v))
    ensures !last.error && last.data.Some? && d in last.data.value && EndsWith(d.key, ".json")
    ensures forall e :: e in last.data.value && EndsWith(e.key, ".json") ==>
      !StrLess(d.lastModified, e.lastModified)
    ensures VersionOf(d.key) == Some(v)
  {
    LatestIsNewest(JsonDocs(last.data.value));
  }

  /** No download without data or after a fetch error. */
  lemma NoOfferWithoutData(last: Fetched)
    requires last.error || last.data.None? || last.data == Some([])
    ensures Offer(last) == None
  {}

  /** A download job for one release; the source's `Download` is not modelled beyond the
      listeners the upgrade attaches and its destruction. */
  class Download {
    const key: string
    const version: string
    var listening: bool
    var destroyed: bool

    constructor (key: string, version: string)
      ensures this.key == key && this.version == version && !listening && !destroyed
    {
      this.key := key;
      this.version := version;
      listening := false;
      destroyed := false;
    }
  }

  class UpgradeCtl {
    var currentVersion: string
    var downloader: Download?

    constructor (currentVersion: string)
      ensures this.currentVersion == currentVersion && downloader == null
    {
      this.currentVersion := currentVersion;
      downloader := null;
    }

    /** The `downloader` setter: the previous download loses its listeners and is
        destroyed, and the new one is listened to. */
    method SetDownloader(value: Download)
      requires value != downloader
      modifies this, downloader, value
      ensures downloader == value && value.listening && value.destroyed == old(value.destroyed)
      ensures old(downloader) != null ==> !old(downloader).listening && old(downloader).destroyed
      ensures currentVersion == old(currentVersion)
    {
      if downloader != null {
        downloader.listening := false;
        downloader.destroyed := true;
      }
      downloader := value;
      downloader.listening := true;
    }

    /** `onFetchData`: a download of the offered version starts exactly when it is above
        the installed version and no download of a version at least as high is running. */
    method OnFetchData(last: Fetched) returns (started: bool)
      modifies this, downloader
      ensures currentVersion == old(currentVersion)
      ensures started <==>
        && Offer(last).Some?
        && IsHighVersion(currentVersion, Offer(last).value.1)
        && (old(downloader) == null || IsHighVersion(old(downloader).version, Offer(last).value.1))
      ensures started ==>
        && fresh(downloader) && downloader.listening && !downloader.destroyed
        && downloader.key == Offer(last).value.0.key && downloader.version == Offer(last).value.1
        && (old(downloader) != null ==> !old(downloader).listening && old(downloader).destroyed)
      ensures !started ==> downloader == old(downloader) && (downloader != null ==> unchanged(downloader))
    {
      var offer := Offer(last);
      if offer.None? {
        return false;
      }
      var (latest, version) := offer.value;
      if !IsHighVersion(currentVersion, version) {
        return false;
      }
      if downloader != null && !IsHighVersion(downloader.version, version) {
        return false;
      }
      var d := new Download(latest.key, version);
      SetDownloader(d);
      started := true;
    }
  }
}
