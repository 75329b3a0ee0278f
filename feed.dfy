/**
 * The feed side of main.go: the decoded RSS document, the `episode` record,
 * and the loop of `fetchFeed` that turns the items of the first channel
 * into episodes.  Fetching over HTTP and XML decoding are not part of this
 * model; it starts from the decoded document.
 */
module Feed {

  /** An `<enclosure>` element; only its `url` attribute is decoded. */
  datatype Enclosure = Enclosure(url: string)

  /** One `<item>` as decoded: title, order, guid, summary, enclosure, categories. */
  datatype Item = Item(
    title: string,
    order: int,
    guid: string,
    summary: string,
    enclosure: Enclosure,
    category: seq<string>)

  datatype Channel = Channel(items: seq<Item>)

  /** The decoded `<rss>` document. */
  datatype Rss = Rss(channels: seq<Channel>)

  /** main.go's `episode`. */
  datatype Episode = Episode(
    title: string,
    number: int,
    link: string,
    desc: string,
    mp3: string,
    tags: seq<string>)

  /** The episode literal built for one item. */
  function EpisodeOf(i: Item): Episode
  {
    Episode(i.title, i.order, i.guid, i.summary, i.enclosure.url, i.category)
  }

  /** The episodes of a list of items, one per item, in document order. */
  function ItemEpisodes(items: seq<Item>): seq<Episode>
  {
    seq(|items|, k requires 0 <= k < |items| => EpisodeOf(items[k]))
  }

  /**
   * The loop of `fetchFeed`: one episode appended per item of the first
   * channel.  Go indexes `Channel[0]` without a check, which panics on a
   * feed without channels; that is this method's precondition, and the
   * caller models the panic.
   */
  method EpisodesOf(data: Rss) returns (eps: seq<Episode>)
    requires |data.channels| > 0
    ensures |eps| == |data.channels[0].items|
    ensures forall k :: 0 <= k < |eps| ==>
      var item := data.channels[0].items[k];
      eps[k].title == item.title && eps[k].number == item.order &&
      eps[k].link == item.guid && eps[k].desc == item.summary &&
      eps[k].mp3 == item.enclosure.url && eps[k].tags == item.category
    ensures eps == ItemEpisodes(data.channels[0].items)
  {
    var items := data.channels[0].items;
    eps := [];
    for j := 0 to |items|
      invariant |eps| == j
      invariant forall k :: 0 <= k < j ==> eps[k] == EpisodeOf(items[k])
    {
      eps := eps + [EpisodeOf(items[j])];
    }
  }
}
