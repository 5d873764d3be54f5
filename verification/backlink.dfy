/** One backlink found on a page (Backlink.php): an immutable record of the
    matched URL, its anchor text, the nofollow flag, the target attribute and
    the tag it came from. The record itself enforces nothing about its fields;
    the scanners of the checker are what keep `tag` to "a" or "img". */
module BacklinkValue {
  import opened Wrappers
  import opened Json

  /** The constructor's second argument, `linkContents`, is stored as the
      anchor. There are no mutators: every member below is a pure read. */
  datatype Backlink = Backlink(backlink: string, anchor: string, noFollow: bool, target: string, tag: string)
  {
    function GetBacklink(): string { backlink }

    function GetAnchor(): string { anchor }

    function IsNoFollow(): bool { noFollow }

    /** Deprecated alias of `IsNoFollow`. */
    function GetNoFollow(): bool { IsNoFollow() }

    function GetTarget(): string { target }

    function GetTag(): string { tag }

    /** `jsonSerialize`: the object's properties in declaration order. */
    function ToJson(): (j: Json)
      ensures j.JObject? && Keys(j.fields) == ["backlink", "anchor", "noFollow", "target", "tag"]
    {
      JObject([("backlink", JString(backlink)), ("anchor", JString(anchor)), ("noFollow", JBool(noFollow)),
               ("target", JString(target)), ("tag", JString(tag))])
    }
  }

  /** Reading a serialised backlink back: `None` unless the five keys are
      present with values of the right kinds. */
  function FromJson(j: Json): Option<Backlink> {
    if !j.JObject? then None
    else
      var backlink :- GetString(j.fields, "backlink");
      var anchor :- GetString(j.fields, "anchor");
      var noFollow :- GetBool(j.fields, "noFollow");
      var target :- GetString(j.fields, "target");
      var tag :- GetString(j.fields, "tag");
      Some(Backlink(backlink, anchor, noFollow, target, tag))
  }

  /** Every getter returns the constructor argument it names, and the
      deprecated `getNoFollow` always agrees with `isNoFollow`. */
  lemma Getters(backlink: string, linkContents: string, noFollow: bool, target: string, tag: string)
    ensures var b := Backlink(backlink, linkContents, noFollow, target, tag);
            && b.GetBacklink() == backlink && b.GetAnchor() == linkContents
            && b.IsNoFollow() == noFollow && b.GetNoFollow() == noFollow
            && b.GetTarget() == target && b.GetTag() == tag
  {
  }

  /** Serialisation loses nothing: every field is bound under its own key
      and reading the object back gives the same record. */
  lemma {:induction false} JsonRoundTrip(b: Backlink)
    ensures FromJson(b.ToJson()) == Some(b)
  {
    var fs := b.ToJson().fields;
    GetFirst(fs, "backlink", 0);
    GetFirst(fs, "anchor", 1);
    GetFirst(fs, "noFollow", 2);
    GetFirst(fs, "target", 3);
    GetFirst(fs, "tag", 4);
  }

  /** The record accepts field combinations the scanners never produce, for
      instance an image that is nofollow and opens in a new window. */
  lemma NoTagConvention()
    ensures var b := Backlink("https://example.com/page", "Click here", true, "_blank", "img");
            b.GetTag() == "img" && b.IsNoFollow() && b.GetTarget() == "_blank"
  {
  }
}
