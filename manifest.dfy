/**
  The load manifest: a document listing the objects of one job, stored in the control bucket
  under a name derived from the job sequence number while the `copy` runs.
*/
module Manifests {
  import opened Wrappers
  import opened Effects

  /** One entry of the manifest's `"entries"` list. */
  datatype Entry = Entry(url: string, mandatory: bool)

  /** The manifest document `{"entries": [...]}` (its JSON layout is not modelled). */
  datatype ManifestDoc = ManifestDoc(entries: seq<Entry>)

  /** `content`: one mandatory entry per object url, in the given order. */
  function Content(urls: seq<string>): (r: ManifestDoc)
    ensures |r.entries| == |urls|
    ensures forall i :: 0 <= i < |urls| ==> r.entries[i].url == urls[i] && r.entries[i].mandatory
  {
    ManifestDoc(seq(|urls|, i requires 0 <= i < |urls| => Entry(urls[i], true)))
  }

  /** The urls a manifest lists, in entry order. */
  function EntryUrls(entries: seq<Entry>): (r: seq<string>)
    ensures |r| == |entries|
  {
    if entries == [] then [] else [entries[0].url] + EntryUrls(entries[1..])
  }

  /** Reading the urls back from a manifest gives exactly the urls it was built from. */
  lemma {:induction false} ContentRoundTrip(urls: seq<string>)
    ensures EntryUrls(Content(urls).entries) == urls
  {
    if urls != [] {
      ContentRoundTrip(urls[1..]);
      assert Content(urls).entries[1..] == Content(urls[1..]).entries;
    }
  }

  // ---------------------------------------------------------------------------------------
  // The manifest name
  // ---------------------------------------------------------------------------------------

  predicate IsDigit(c: char)
  {
    '0' <= c <= '9'
  }

  /** The decimal spelling of `n`, as Ruby interpolates an Integer. */
  function Decimal(n: nat): (r: string)
    ensures |r| > 0 && forall i :: 0 <= i < |r| ==> IsDigit(r[i])
  {
    if n < 10 then [('0' as int + n) as char]
    else Decimal(n / 10) + [('0' as int + n % 10) as char]
  }

  /** The number a string of decimal digits spells. */
  function DecimalValue(s: string): nat
    requires forall i :: 0 <= i < |s| ==> IsDigit(s[i])
  {
    if s == [] then 0
    else
      assert IsDigit(s[|s| - 1]);
      DecimalValue(s[..|s| - 1]) * 10 + (s[|s| - 1] as int - '0' as int)
  }

  /** Reading a decimal spelling back gives the number. */
  lemma {:induction false} DecimalRoundTrip(n: nat)
    ensures DecimalValue(Decimal(n)) == n
  {
    if n >= 10 {
      var s := Decimal(n);
      assert s[..|s| - 1] == Decimal(n / 10);
      DecimalRoundTrip(n / 10);
    }
  }

  /** `name`: `manifest-<job_seq>.json`. */
  function ManifestName(jobSeq: nat): (r: string)
    ensures |r| == 14 + |Decimal(jobSeq)|
    ensures r[..9] == "manifest-" && r[|r| - 5..] == ".json"
    ensures r[9..|r| - 5] == Decimal(jobSeq)
  {
    "manifest-" + Decimal(jobSeq) + ".json"
  }

  /** Different jobs never share a manifest name. */
  lemma ManifestNameInjective(a: nat, b: nat)
    requires ManifestName(a) == ManifestName(b)
    ensures a == b
  {
    DecimalRoundTrip(a);
    DecimalRoundTrip(b);
  }

  // ---------------------------------------------------------------------------------------
  // The bucket and the manifest file
  // ---------------------------------------------------------------------------------------

  /** The control bucket: stored documents by name, and the url prefix of its objects. */
  class Bucket {
    const urlPrefix: string
    var objects: map<string, ManifestDoc>

    constructor(urlPrefix: string, objects: map<string, ManifestDoc>)
      ensures this.urlPrefix == urlPrefix && this.objects == objects
    {
      this.urlPrefix := urlPrefix;
      this.objects := objects;
    }

    /** The url of the object stored under `name`. */
    function UrlOf(name: string): string
    {
      urlPrefix + name
    }
  }

  /** `ManifestFile`: the manifest of one job, with its memoised name, url and content. */
  class ManifestFile {
    const bucket: Bucket
    const journal: Journal
    const jobSeq: nat
    const objectUrls: seq<string>
    const noop: bool
    var nameMemo: Option<string>
    var urlMemo: Option<string>
    var contentMemo: Option<ManifestDoc>

    /** A memoised value, once computed, is the value the definition gives. */
    ghost predicate Valid()
      reads this
    {
      && (nameMemo.Some? ==> nameMemo.value == ManifestName(jobSeq))
      && (urlMemo.Some? ==> urlMemo.value == bucket.UrlOf(ManifestName(jobSeq)))
      && (contentMemo.Some? ==> contentMemo.value == Content(objectUrls))
    }

    constructor(bucket: Bucket, journal: Journal, jobSeq: nat, objectUrls: seq<string>, noop: bool := false)
      ensures this.bucket == bucket && this.journal == journal && this.jobSeq == jobSeq
      ensures this.objectUrls == objectUrls && this.noop == noop
      ensures nameMemo.None? && urlMemo.None? && contentMemo.None?
      ensures Valid()
    {
      this.bucket := bucket;
      this.journal := journal;
      this.jobSeq := jobSeq;
      this.objectUrls := objectUrls;
      this.noop := noop;
      nameMemo := None;
      urlMemo := None;
      contentMemo := None;
    }

    /** `name`, computed on first use and kept. */
    method Name() returns (n: string)
      requires Valid()
      modifies this
      ensures Valid()
      ensures n == ManifestName(jobSeq) && nameMemo == Some(n)
      ensures urlMemo == old(urlMemo) && contentMemo == old(contentMemo)
    {
      if nameMemo.None? {
        nameMemo := Some(ManifestName(jobSeq));
      }
      n := nameMemo.value;
    }

    /** `url`: the bucket url of the name, computed on first use and kept. */
    method Url() returns (u: string)
      requires Valid()
      modifies this
      ensures Valid()
      ensures u == bucket.UrlOf(ManifestName(jobSeq)) && urlMemo == Some(u)
      ensures contentMemo == old(contentMemo)
    {
      if urlMemo.None? {
        var n := Name();
        urlMemo := Some(bucket.UrlOf(n));
      }
      u := urlMemo.value;
    }

    /** `content`, computed on first use and kept. */
    method GetContent() returns (c: ManifestDoc)
      requires Valid()
      modifies this
      ensures Valid()
      ensures c == Content(objectUrls) && contentMemo == Some(c)
      ensures nameMemo == old(nameMemo) && urlMemo == old(urlMemo)
    {
      if contentMemo.None? {
        contentMemo := Some(Content(objectUrls));
      }
      c := contentMemo.value;
    }

    /**
      `put`: unless `noop`, issues one put of the content under the name; `fails` says whether
      the bucket refuses it, in which case the exception propagates and nothing is stored.
    */
    method Put(fails: bool) returns (raised: bool)
      requires Valid()
      modifies this, bucket, journal
      ensures Valid()
      ensures raised == (!noop && fails)
      ensures journal.entries == old(journal.entries) + (if noop then [] else [PutManifest(ManifestName(jobSeq))])
      ensures bucket.objects == (if noop || fails then old(bucket.objects)
                                 else old(bucket.objects)[ManifestName(jobSeq) := Content(objectUrls)])
    {
      var n := Name();
      raised := false;
      if !noop {
        var c := GetContent();
        journal.Append(PutManifest(n));
        if fails {
          raised := true;
        } else {
          bucket.objects := bucket.objects[n := c];
        }
      }
    }

    /** `delete`: unless `noop`, issues one delete of the name. */
    method Delete(fails: bool) returns (raised: bool)
      requires Valid()
      modifies this, bucket, journal
      ensures Valid()
      ensures raised == (!noop && fails)
      ensures journal.entries == old(journal.entries) + (if noop then [] else [DeleteManifest(ManifestName(jobSeq))])
      ensures bucket.objects == (if noop || fails then old(bucket.objects)
                                 else old(bucket.objects) - {ManifestName(jobSeq)})
    {
      var n := Name();
      raised := false;
      if !noop {
        journal.Append(DeleteManifest(n));
        if fails {
          raised := true;
        } else {
          bucket.objects := bucket.objects - {n};
        }
      }
    }

    /**
      `create_temporary`: put, run the block, delete.  The block is abstracted to whether it
      raises.  A failed put stores nothing and skips the rest.  There is no `ensure`, so a
      raising block skips the delete and leaves the manifest behind, as a failed delete does.
    */
    method CreateTemporary(putFails: bool, blockRaises: bool, deleteFails: bool) returns (raised: bool)
      requires Valid()
      modifies this, bucket, journal
      ensures Valid()
      ensures var name := ManifestName(jobSeq);
        var putRaised := !noop && putFails;
        && raised == (putRaised || blockRaises || (!noop && deleteFails))
        && journal.entries == old(journal.entries)
             + (if noop then [] else [PutManifest(name)])
             + (if noop || putRaised || blockRaises then [] else [DeleteManifest(name)])
        && bucket.objects == (if noop || putRaised then old(bucket.objects)
                              else if blockRaises || deleteFails then old(bucket.objects)[name := Content(objectUrls)]
                              else old(bucket.objects) - {name})
    {
      raised := Put(putFails);
      if raised {
        return;
      }
      if blockRaises {
        raised := true;
        return;
      }
      raised := Delete(deleteFails);
    }
  }
}
