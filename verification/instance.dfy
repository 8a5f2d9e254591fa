/** The state of a `TfTruncate` object (src/Tf/String/TfTruncate.php lines
    24-67) and its two tag lists. */
module Instance {
  import opened Options
  import opened TextUtil

  /** The two error kinds `truncateHTML` records, with their PHP constant values. */
  datatype XmlError = OpeningXml | ParsingXml {
    function Code(): int {
      match this
      case OpeningXml => 1
      case ParsingXml => 2
    }
  }

  /** A truncator object. `cplt` is the completion marker appended when a
      text is cut. The collaborators the class calls but does not define are
      fields: `stripMarkup` stands for the markup pre-pass of lines 78-84
      (removal of ignore-content elements, `strip_tags`,
      `html_entity_decode`), `decodeEntities` for lines 175-176
      (`&amp;` restored, `html_entity_decode`). `error` and `errors` are the
      last call's error kind and the parser's diagnostics, `None` for PHP's
      `null`. */
  datatype TfTruncate = TfTruncate(
    cplt: string,
    stripMarkup: string -> string,
    decodeEntities: string -> string,
    error: Option<XmlError>,
    errors: Option<seq<string>>)

  /** A freshly constructed truncator: marker `...`, no error recorded. */
  function Fresh(stripMarkup: string -> string, decodeEntities: string -> string): TfTruncate {
    TfTruncate("...", stripMarkup, decodeEntities, None, None)
  }

  /** A new truncator carries the default marker and no error, and the two
      error kinds carry the values of `ERROR_OPENING_XML` and
      `ERROR_PARSING_XML`. */
  lemma FreshHasNoError(stripMarkup: string -> string, decodeEntities: string -> string)
    ensures var t := Fresh(stripMarkup, decodeEntities);
            t.cplt == "..." && t.error == None && t.errors == None
    ensures OpeningXml.Code() == 1 && ParsingXml.Code() == 2 && OpeningXml.Code() != ParsingXml.Code()
  {
  }

  /** Tags whose content is never counted (and never output when the tag is stripped). */
  const TagsIgnoreContent: seq<string> :=
    ["script", "style", "embed", "object", "noscript", "video", "audio", "canvas"]

  /** Tags kept even when tag stripping is asked for. */
  const TagsNotToStrip: seq<string> := ["span", "i", "b", "u", "strong", "em", "a"]

  /** `ignoreContentOfTag`: membership of the lower-cased name in the list.
      (PHP's loose `in_array` comparison is string equality here, since no
      listed name is a numeric string.) */
  predicate IgnoreContentOfTag(tagName: string) {
    Lower(tagName) in TagsIgnoreContent
  }

  /** Whether `truncateHTML` drops the tag itself from its output. */
  predicate StripTag(stripTags: bool, tagName: string) {
    stripTags && Lower(tagName) !in TagsNotToStrip
  }

  lemma LowerOfLowercase(s: string)
    requires forall i :: 0 <= i < |s| ==> 'a' <= s[i] <= 'z'
    ensures Lower(s) == s
  {
  }

  /** `ignoreContentOfTag` answers whether the name equals, ignoring ASCII
      case, one of the listed tags. */
  lemma IgnoreContentIsCaseInsensitiveMembership(tagName: string)
    ensures IgnoreContentOfTag(tagName) <==>
            exists k :: 0 <= k < |TagsIgnoreContent| && EqualsIgnoringCase(tagName, TagsIgnoreContent[k])
  {
    forall k | 0 <= k < |TagsIgnoreContent|
      ensures Lower(TagsIgnoreContent[k]) == TagsIgnoreContent[k]
    {
      LowerOfLowercase(TagsIgnoreContent[k]);
    }
  }

  /** Changing the case of a tag name changes neither decision. */
  lemma TagDecisionsIgnoreCase(a: string, b: string, stripTags: bool)
    requires EqualsIgnoringCase(a, b)
    ensures IgnoreContentOfTag(a) == IgnoreContentOfTag(b)
    ensures StripTag(stripTags, a) == StripTag(stripTags, b)
  {
  }

  lemma UpperCaseScriptIsIgnored()
    ensures IgnoreContentOfTag("SCRIPT") && IgnoreContentOfTag("Style")
    ensures !IgnoreContentOfTag("p")
  {
    assert Lower("SCRIPT") == "script";
    assert Lower("Style") == "style";
    assert Lower("p") == "p";
  }
}
