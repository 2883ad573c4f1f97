/**
 * `extract_sports_categories`: the category menu of the homepage becomes a map
 * from category name to absolute category link.  The CSS selection
 * "ul.scroll-menu li.scroll-menu-item a.sport-text-hover" is taken as given:
 * the page is the sequence of anchors it matched, in document order.
 */
module Categories {
  import opened Wrappers
  import opened Text
  import opened Urls
  import opened SavedFiles

  /** One matched menu anchor: its text and its `href` attribute, if it has one. */
  datatype MenuAnchor = MenuAnchor(text: string, href: Option<string>)

  /** `if sport_link:` — the anchor has an `href` and it is not empty. */
  predicate Linked(anchor: MenuAnchor) {
    anchor.href.Some? && anchor.href.value != ""
  }

  /** `item.text.strip()`: the category name an anchor stands for. */
  function Name(anchor: MenuAnchor): string {
    Strip(anchor.text)
  }

  /** The dictionary after the anchors have been visited in order; a later
      anchor with the same name overwrites an earlier one. */
  function CategoryMap(anchors: seq<MenuAnchor>): map<string, string> {
    if anchors == [] then map[]
    else
      var earlier := CategoryMap(anchors[..|anchors| - 1]);
      var last := anchors[|anchors| - 1];
      if Linked(last) then earlier[Name(last) := CategoryUrl(last.href.value)] else earlier
  }

  /** The whole function: a missing homepage file gives the empty map; any
      other read error escapes. */
  function SportCategories(file: SavedFile<seq<MenuAnchor>>): (r: Result<map<string, string>, ScrapeError>)
    ensures r.Failure? <==> file.Unreadable?
    ensures r.Failure? ==> r.error == ReadFailed
    ensures file.NotFound? ==> r == Success(map[])
  {
    match file
    case NotFound => Success(map[])
    case Unreadable => Failure(ReadFailed)
    case Parsed(anchors) => Success(CategoryMap(anchors))
  }

  method ExtractSportsCategories(file: SavedFile<seq<MenuAnchor>>) returns (result: Result<map<string, string>, ScrapeError>)
    ensures result == SportCategories(file)
  {
    if file.NotFound? {
      return Success(map[]);
    } else if file.Unreadable? {
      return Failure(ReadFailed);
    }
    var menuItems := file.content;
    var sportCategories: map<string, string> := map[];
    for i := 0 to |menuItems|
      invariant sportCategories == CategoryMap(menuItems[..i])
    {
      var item := menuItems[i];
      var sportName := Strip(item.text);
      var sportLink := item.href;
      if sportLink.Some? && sportLink.value != "" {
        sportCategories := sportCategories[sportName := CategoryUrl(sportLink.value)];
      }
      assert menuItems[..i + 1][..i] == menuItems[..i];
    }
    assert menuItems[..|menuItems|] == menuItems;
    result := Success(sportCategories);
  }

  /** The names of the anchors that carry a non-empty `href`. */
  ghost function LinkedNames(anchors: seq<MenuAnchor>): set<string> {
    set i | 0 <= i < |anchors| && Linked(anchors[i]) :: Name(anchors[i])
  }

  /** Visiting one more anchor adds its name when it is linked. */
  lemma LinkedNamesSnoc(earlier: seq<MenuAnchor>, last: MenuAnchor)
    ensures LinkedNames(earlier + [last]) == LinkedNames(earlier) + (if Linked(last) then {Name(last)} else {})
  {
    var anchors := earlier + [last];
    forall name | name in LinkedNames(anchors)
      ensures name in LinkedNames(earlier) || (Linked(last) && name == Name(last))
    {
      var i :| 0 <= i < |anchors| && Linked(anchors[i]) && Name(anchors[i]) == name;
      if i < |earlier| {
        assert anchors[i] == earlier[i];
      }
    }
    forall name | name in LinkedNames(earlier)
      ensures name in LinkedNames(anchors)
    {
      var i :| 0 <= i < |earlier| && Linked(earlier[i]) && Name(earlier[i]) == name;
      assert anchors[i] == earlier[i];
    }
    if Linked(last) {
      assert anchors[|earlier|] == last;
    }
  }

  /** The keys are exactly the stripped names of the linked anchors. */
  lemma {:induction false} CategoryMapKeys(anchors: seq<MenuAnchor>)
    ensures CategoryMap(anchors).Keys == LinkedNames(anchors)
  {
    if anchors != [] {
      var n := |anchors|;
      var earlier := anchors[..n - 1];
      CategoryMapKeys(earlier);
      assert anchors == earlier + [anchors[n - 1]];
      LinkedNamesSnoc(earlier, anchors[n - 1]);
    }
  }

  /** Last one wins: the link stored for a name is built from the `href` of the
      last linked anchor with that name. */
  lemma {:induction false} CategoryMapLastWins(anchors: seq<MenuAnchor>, i: nat)
    requires i < |anchors| && Linked(anchors[i])
    requires forall j :: i < j < |anchors| ==> !Linked(anchors[j]) || Name(anchors[j]) != Name(anchors[i])
    ensures Name(anchors[i]) in CategoryMap(anchors)
    ensures CategoryMap(anchors)[Name(anchors[i])] == CategoryUrl(anchors[i].href.value)
  {
    var n := |anchors|;
    var name := Name(anchors[i]);
    if i < n - 1 {
      var earlier := anchors[..n - 1];
      var last := anchors[n - 1];
      assert earlier[i] == anchors[i];
      forall j | i < j < n - 1 ensures !Linked(earlier[j]) || Name(earlier[j]) != name {
        assert earlier[j] == anchors[j];
      }
      CategoryMapLastWins(earlier, i);
      assert !Linked(last) || Name(last) != name;
    }
  }

  /** Every stored link is the origin followed by the `href` of an anchor with
      that name. */
  lemma {:induction false} CategoryMapValues(anchors: seq<MenuAnchor>, name: string)
    requires name in CategoryMap(anchors)
    ensures exists i :: 0 <= i < |anchors| && Linked(anchors[i]) && Name(anchors[i]) == name
                        && CategoryMap(anchors)[name] == Origin + anchors[i].href.value
  {
    var n := |anchors|;
    var earlier := anchors[..n - 1];
    var last := anchors[n - 1];
    if Linked(last) && Name(last) == name {
      CategoryUrlIsOriginPlusHref(last.href.value);
      assert CategoryMap(anchors)[name] == Origin + anchors[n - 1].href.value;
    } else {
      CategoryMapValues(earlier, name);
      var i :| 0 <= i < n - 1 && Linked(earlier[i]) && Name(earlier[i]) == name
               && CategoryMap(earlier)[name] == Origin + earlier[i].href.value;
      assert anchors[i] == earlier[i];
    }
  }

  /** Anchors without a usable `href` play no part: a menu with none gives the
      empty map. */
  lemma {:induction false} UnlinkedMenuGivesNoCategories(anchors: seq<MenuAnchor>)
    requires forall i :: 0 <= i < |anchors| ==> !Linked(anchors[i])
    ensures CategoryMap(anchors) == map[]
  {
    if anchors != [] {
      UnlinkedMenuGivesNoCategories(anchors[..|anchors| - 1]);
    }
  }
}
