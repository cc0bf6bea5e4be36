/** The link record handed to the pool by crawl workers, and its dedup key. */
module Links {

  datatype Option<T> = None | Some(value: T)

  /** The statuses the pool writes into a link: PEND on acceptance, ABAN on
      cleanup or dispose. Init stands for whatever status the link carried
      before the pool first saw it. */
  datatype LinkStatus = Init | Pend | Aban

  /** Identity of a link for deduplication: url, post data and headers. */
  datatype LinkKey = LinkKey(url: string, post: Option<string>, headers: map<string, string>)

  /** A link record. Only its status is ever changed, and external holders
      observe that change through their own reference. */
  class LinkInfo {
    const url: string
    const post: Option<string>
    const headers: map<string, string>
    const identifier: string
    const weight: int
    var status: LinkStatus

    constructor (url: string, weight: int, identifier: string, post: Option<string>, headers: map<string, string>)
      ensures this.url == url && this.weight == weight && this.identifier == identifier
      ensures this.post == post && this.headers == headers
      ensures status == Init
    {
      this.url := url;
      this.weight := weight;
      this.identifier := identifier;
      this.post := post;
      this.headers := headers;
      status := Init;
    }

    /** The dedup key: url, post data and headers; the weight and the
        identifier play no part. */
    function Key(): LinkKey {
      LinkKey(url, post, headers)
    }
  }

  /** The loop of cleanup_source and dispose over a heap: every queued link
      is marked abandoned, so a worker waiting on it sees it dropped. */
  method MarkAbandoned(links: seq<LinkInfo>)
    modifies set l | l in links
    ensures forall i :: 0 <= i < |links| ==> links[i].status == Aban
  {
    for i := 0 to |links|
      invariant forall j :: 0 <= j < i ==> links[j].status == Aban
    {
      links[i].status := Aban;
    }
  }
}
