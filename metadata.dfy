/**
 * The upload metadata built by `process` in main.go: the description is
 * "Original post: <link>" and a blank line, followed by the sanitised
 * description with every newline turned into a space; the tags are the
 * episode's categories followed by the comma-separated `-tags` flag; the
 * privacy status is always "unlisted".  The title comes from the title
 * template and the sanitised text from the HTML sanitiser; both are inputs.
 */
module Metadata {
  import opened GoStrings
  import opened Feed

  /** The snippet and status of the `youtube.Video` that is uploaded. */
  datatype Video = Video(title: string, description: string, tags: seq<string>, privacy: string)

  /** The line that opens every description. */
  function Header(link: string): string
  {
    "Original post: " + link + "\n\n"
  }

  function VideoMetadata(ep: Episode, title: string, sanitized: string, tagsFlag: string): (v: Video)
    ensures v.title == title
    ensures v.privacy == "unlisted"
    // The description: the header, then the sanitised text, position by position,
    // newlines turned into spaces and nothing else changed.
    ensures |v.description| == |Header(ep.link)| + |sanitized|
    ensures v.description[..|Header(ep.link)|] == Header(ep.link)
    ensures forall i :: 0 <= i < |sanitized| ==>
      v.description[|Header(ep.link)| + i] == if sanitized[i] == '\n' then ' ' else sanitized[i]
    ensures '\n' !in v.description[|Header(ep.link)|..]
    // The tags: the episode's own, then one per comma-separated piece of the flag.
    ensures |v.tags| == |ep.tags| + Count(tagsFlag, ',') + 1
    ensures v.tags[..|ep.tags|] == ep.tags
    ensures Join(v.tags[|ep.tags|..], ',') == tagsFlag
    ensures forall t :: t in v.tags[|ep.tags|..] ==> ',' !in t
  {
    var flat := ReplaceAll(sanitized, '\n', ' ');
    ReplaceAllAt(sanitized, '\n', ' ');
    var extra := Split(tagsFlag, ',');
    JoinSplit(tagsFlag, ',');
    var v := Video(title, Header(ep.link) + flat, ep.tags + extra, "unlisted");
    assert v.description[|Header(ep.link)|..] == flat;
    assert v.tags[|ep.tags|..] == extra;
    v
  }

  /** Sanitised text without newlines is carried into the description unchanged. */
  lemma DescriptionWithoutNewlines(ep: Episode, title: string, sanitized: string, tagsFlag: string)
    requires '\n' !in sanitized
    ensures VideoMetadata(ep, title, sanitized, tagsFlag).description == Header(ep.link) + sanitized
  {
    var d := VideoMetadata(ep, title, sanitized, tagsFlag).description;
    var h := Header(ep.link);
    assert d[|h|..] == sanitized by {
      forall i | 0 <= i < |sanitized| ensures d[|h|..][i] == sanitized[i] {
        assert sanitized[i] != '\n';
      }
    }
    assert d == h + d[|h|..];
  }

  /** The description of an episode linking to "http://x/1" whose sanitised text is "Hello world". */
  lemma DescriptionExample(ep: Episode, title: string, text: string, tagsFlag: string)
    requires ep.link == "http://x/1" && text == "Hello world"
    ensures VideoMetadata(ep, title, text, tagsFlag).description ==
      "Original post: http://x/1\n\nHello world"
  {
    assert '\n' !in text;
    DescriptionWithoutNewlines(ep, title, text, tagsFlag);
  }

  /** The default flag "podcast,gcppodcast" adds the two tags "podcast" and "gcppodcast". */
  lemma DefaultTags(ep: Episode, title: string, sanitized: string, tagsFlag: string)
    requires tagsFlag == "podcast,gcppodcast"
    ensures VideoMetadata(ep, title, sanitized, tagsFlag).tags == ep.tags + ["podcast", "gcppodcast"]
  {
    var parts := ["podcast", "gcppodcast"];
    assert Join(parts, ',') == "podcast,gcppodcast";
    assert forall p :: p in parts ==> ',' !in p;
    SplitJoin(parts, ',');
  }
}
