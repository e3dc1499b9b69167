/** The tag picker: coloured chips for the selected tags, a dropdown of the
    default tags that toggles them, and a read-only input showing the
    selected names. */
module TagSelector {
  import opened Common

  datatype Tag = Tag(name: string, color: string)

  /** The dropdown's four tags. */
  const DefaultTags: seq<Tag> :=
    [Tag("Chill", "#A3D5FF"), Tag("Rap", "#FF7B54"), Tag("R&B", "#B794F4"), Tag("Lo-fi", "#FFD66B")]

  const EmptyPlaceholder: string := "Select or create tags..."

  function NameIsNot(name: string): Tag -> bool { (t: Tag) => t.name != name }

  /** Some selected tag is called `name` (`selectedTags.find(...)` is truthy). */
  predicate HasName(tags: seq<Tag>, name: string)
  {
    exists i :: 0 <= i < |tags| && tags[i].name == name
  }

  /** `removeTag`: drop every tag called `name`. */
  function RemoveTag(tags: seq<Tag>, name: string): (r: seq<Tag>)
    ensures !HasName(r, name)
    ensures forall t: Tag :: t.name != name ==> multiset(r)[t] == multiset(tags)[t]
  {
    forall t: Tag | t.name != name ensures multiset(Filter(tags, NameIsNot(name)))[t] == multiset(tags)[t] {
      FilterCount(tags, NameIsNot(name), t);
    }
    Filter(tags, NameIsNot(name))
  }

  /** The tags that stay keep their order: removing from a concatenation
      removes from each part, and removing a name nobody has changes nothing. */
  lemma RemoveTagOrder(a: seq<Tag>, b: seq<Tag>, name: string)
    ensures RemoveTag(a + b, name) == RemoveTag(a, name) + RemoveTag(b, name)
    ensures !HasName(a, name) ==> RemoveTag(a, name) == a
  {
    FilterAppend(a, b, NameIsNot(name));
    if !HasName(a, name) {
      FilterAll(a, NameIsNot(name));
    }
  }

  /** `toggleTag`: a tag whose name is selected is removed (with every tag of
      that name), any other tag is appended at the end. */
  function ToggleTag(tags: seq<Tag>, tag: Tag): (r: seq<Tag>)
    ensures HasName(r, tag.name) <==> !HasName(tags, tag.name)
    ensures HasName(tags, tag.name) ==> r == RemoveTag(tags, tag.name)
    ensures !HasName(tags, tag.name) ==> |r| == |tags| + 1 && r[..|tags|] == tags && r[|tags|] == tag
  {
    if HasName(tags, tag.name) then RemoveTag(tags, tag.name)
    else
      assert (tags + [tag])[|tags|] == tag;
      tags + [tag]
  }

  /** Toggling a tag that is not selected, then toggling it again, gives
      back the original selection. */
  lemma ToggleTagTwice(tags: seq<Tag>, tag: Tag)
    requires !HasName(tags, tag.name)
    ensures ToggleTag(ToggleTag(tags, tag), tag) == tags
  {
    var once := tags + [tag];
    assert once[|tags|] == tag;
    assert HasName(once, tag.name);
    FilterSnoc(tags, tag, NameIsNot(tag.name));
    FilterAll(tags, NameIsNot(tag.name));
  }

  function Names(tags: seq<Tag>): (r: seq<string>)
    ensures |r| == |tags| && forall i :: 0 <= i < |tags| ==> r[i] == tags[i].name
  {
    seq(|tags|, i requires 0 <= i < |tags| => tags[i].name)
  }

  /** The read-only input's value: the names joined with ", ". */
  function DisplayValue(tags: seq<Tag>): (r: string)
    ensures tags == [] ==> r == ""
    ensures |tags| == 1 ==> r == tags[0].name
  {
    Join(Names(tags), ", ")
  }

  /** The placeholder, shown only while nothing is selected. */
  function Placeholder(tags: seq<Tag>): (r: string)
    ensures r != "" <==> tags == []
    ensures tags == [] ==> r == EmptyPlaceholder
  {
    if |tags| > 0 then "" else EmptyPlaceholder
  }

  /** When no name contains a comma, the value has one comma fewer than there
      are tags, so each name can be read back between the separators. */
  lemma {:induction false} DisplayValueCommas(tags: seq<Tag>)
    requires forall i :: 0 <= i < |tags| ==> CountChar(tags[i].name, ',') == 0
    ensures CountChar(DisplayValue(tags), ',') == if tags == [] then 0 else |tags| - 1
  {
    if |tags| > 1 {
      var names := Names(tags);
      assert Names(tags[1..]) == names[1..];
      DisplayValueCommas(tags[1..]);
      assert CountChar(", ", ',') == 1;
      CountCharAppend(names[0], ", ", ',');
      CountCharAppend(names[0] + ", ", Join(names[1..], ", "), ',');
    }
  }

  /** The value starts with the first selected name and ends with the last. */
  lemma {:induction false} DisplayValueEnds(tags: seq<Tag>)
    requires tags != []
    ensures IsPrefix(tags[0].name, DisplayValue(tags))
    ensures var v := DisplayValue(tags); var last := tags[|tags| - 1].name;
      |last| <= |v| && v[|v| - |last|..] == last
  {
    var names := Names(tags);
    if |tags| > 1 {
      assert Names(tags[1..]) == names[1..];
      DisplayValueEnds(tags[1..]);
      assert DisplayValue(tags) == names[0] + ", " + DisplayValue(tags[1..]);
    }
  }

  /** The selection the component shows, and whether the dropdown is open. */
  class TagSelectorState {
    var selectedTags: seq<Tag>
    var isDropdownOpen: bool

    constructor (initial: seq<Tag>)
      ensures selectedTags == initial && !isDropdownOpen
    {
      selectedTags := initial;
      isDropdownOpen := false;
    }

    /** A click on the input box opens or closes the dropdown. */
    method ToggleDropdown()
      modifies this
      ensures isDropdownOpen == !old(isDropdownOpen) && selectedTags == old(selectedTags)
    {
      isDropdownOpen := !isDropdownOpen;
    }

    /** The remove button on a chip. */
    method OnRemove(name: string)
      modifies this
      ensures selectedTags == RemoveTag(old(selectedTags), name) && isDropdownOpen == old(isDropdownOpen)
    {
      selectedTags := RemoveTag(selectedTags, name);
    }

    /** A click on a tag in the dropdown. */
    method OnToggle(tag: Tag)
      modifies this
      ensures selectedTags == ToggleTag(old(selectedTags), tag) && isDropdownOpen == old(isDropdownOpen)
    {
      selectedTags := ToggleTag(selectedTags, tag);
    }
  }
}
