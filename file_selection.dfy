/** The selection handler of utility/FileSelectionListener.java: the text of the selected tree
    node is turned back into the request name under which the collection map holds the request,
    and that request is handed to the callback. */
module FileSelection {
  import opened Wrappers
  import opened JavaText
  import opened Objects
  import opened CollectionItems
  import opened CollectionTree

  /** The name `valueChanged` looks up for a label: for one containing both "[" and "]", the
      text before its first "[", trimmed; any other label whole. */
  function OriginalName(text: string): (r: string)
    ensures '[' in text && ']' in text ==> '[' !in r && |r| < |text|
    ensures !('[' in text && ']' in text) ==> r == text
  {
    ContainsChar(text, '[');
    ContainsChar(text, ']');
    if Contains(text, "[") && Contains(text, "]") then
      var i := IndexOf(text, '[');
      TrimChars(text[..i], '[');
      Trim(text[..i])
    else text
  }

  /** `valueChanged`: the request handed to the callback, `None` when the callback is not
      called. */
  function SelectedRequest(selected: Option<NodeData>, requests: map<string, Option<Request>>, hasCallback: bool): (r: Option<Request>)
    ensures r.Some? <==> selected.Some? && hasCallback && OriginalName(NodeText(selected.value)) in requests
                         && requests[OriginalName(NodeText(selected.value))].Some?
    ensures r.Some? ==> requests[OriginalName(NodeText(selected.value))] == r
  {
    if selected.None? then None
    else
      var name := OriginalName(NodeText(selected.value));
      if name !in requests then None
      else if hasCallback && requests[name].Some? then requests[name]
      else None
  }

  /** `s` neither starts nor ends with a character `trim` removes, so `s.trim()` is `s`. */
  predicate Untrimmable(s: string) {
    s == [] || (!IsTrimSpace(s[0]) && !IsTrimSpace(s[|s| - 1]))
  }

  lemma UntrimmableIsTrimmed(s: string)
    ensures Untrimmable(s) <==> Trim(s) == s
  {
    if Untrimmable(s) {
      TrimOfTrimmed(s);
    }
  }

  /** A label made of a name, a space and a "[" that later meets a "]" gives the name back when
      the name has no "[" of its own and no surrounding whitespace. */
  lemma BracketSuffixStripped(name: string, text: string)
    requires '[' !in name && Untrimmable(name)
    requires |name| + 1 < |text| && text[..|name| + 1] == name + " " && text[|name| + 1] == '[' && ']' in text
    ensures OriginalName(text) == name
  {
    var i := |name| + 1;
    var head := text[..i];
    assert '[' !in head by {
      assert head == name + " " && '[' !in " ";
    }
    IndexOfAt(text, '[', i);
    ContainsChar(text, '[');
    ContainsChar(text, ']');
    assert OriginalName(text) == Trim(head);
    TrimTrailingSpace(name);
  }

  lemma TrimTrailingSpace(name: string)
    requires Untrimmable(name)
    ensures Trim(name + " ") == name
  {
    TrimPadded([], name, " ");
    assert [] + name + " " == name + " ";
  }

  /** `name + " [" + suffix + "]"` meets the conditions of `BracketSuffixStripped`. */
  lemma BracketedShape(name: string, suffix: string)
    ensures var text := name + " [" + suffix + "]";
            |name| + 1 < |text| && text[..|name| + 1] == name + " " && text[|name| + 1] == '[' && ']' in text
  {
    var text := name + " [" + suffix + "]";
    assert text[|text| - 1] == ']';
  }

  /** Extraction inverts the tree's label: an item whose name has no "[" and no surrounding
      whitespace is looked up under its own name, with or without the " [METHOD]" suffix. */
  lemma LabelGivesName(d: ItemsData, info: ItemInfo)
    requires '[' !in info.name && Untrimmable(info.name)
    ensures OriginalName(DisplayName(d, info)) == info.name
  {
    if DisplayName(d, info) != info.name {
      BracketedShape(info.name, d.methods[info.id]);
      BracketSuffixStripped(info.name, DisplayName(d, info));
    }
  }

  /** A request named with a bracketed part, `"a [b]"`, is looked up as `"a"`, whether or not
      its label carries a method: its own entry in the map is never found from the tree. */
  lemma BracketedNameShortened(d: ItemsData, info: ItemInfo, a: string, b: string)
    requires info.name == a + " [" + b + "]"
    requires '[' !in a && Untrimmable(a)
    ensures OriginalName(DisplayName(d, info)) == a != info.name
  {
    var text := DisplayName(d, info);
    BracketedShape(a, b);
    assert text[..|info.name|] == info.name;
    assert text[..|a| + 1] == info.name[..|a| + 1];
    assert text[|a| + 1] == info.name[|a| + 1];
    assert info.name[|info.name| - 1] == ']';
    assert ']' in text by {
      assert text[|info.name| - 1] == ']';
    }
    BracketSuffixStripped(a, text);
  }

  /** Selecting the node built for a request item hands the callback the request stored under
      the item's name, when the name has no "[" and no surrounding whitespace. */
  lemma SelectingBuiltNode(d: ItemsData, info: ItemInfo, requests: map<string, Option<Request>>)
    requires WellFormed(d) && '[' !in info.name && Untrimmable(info.name)
    requires info.name in requests && requests[info.name].Some?
    ensures SelectedRequest(Some(BuildNode(d, info).data), requests, true) == requests[info.name]
  {
    BuildNodeFollows(d, info);
    LabelGivesName(d, info);
  }
}
