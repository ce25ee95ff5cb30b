/** String helpers for the rendered report: the ", "-separated list that the
    typed parameter rendering builds, and the searches used to read a
    rendered signature or callee back. */
module Text {
  import opened Optional

  const Separator: string := ", "

  /** The items in order with `Separator` between neighbours and nowhere else. */
  function Join(items: seq<string>): string
  {
    if |items| == 0 then ""
    else if |items| == 1 then items[0]
    else items[0] + Separator + Join(items[1..])
  }

  /** Splits a string written by `Join` back into its items: cuts at each
      comma and skips the separator that follows the item. */
  function Split(s: string): seq<string>
    decreases |s|
  {
    if s == [] then []
    else
      match IndexOf(s, ',')
      case None => [s]
      case Some(i) =>
        var next := if i + |Separator| <= |s| then i + |Separator| else |s|;
        [s[..i]] + Split(s[next..])
  }

  /** The first position of `c` in `s`, if it occurs. */
  function IndexOf(s: string, c: char): (r: Option<nat>)
    ensures r.None? <==> c !in s
    ensures r.Some? ==> r.value < |s| && s[r.value] == c && c !in s[..r.value]
  {
    if s == [] then None
    else if s[0] == c then Some(0)
    else
      match IndexOf(s[1..], c)
      case None => None
      case Some(i) => Some(i + 1)
  }

  /** The last position of `c` in `s`, if it occurs. */
  function LastIndexOf(s: string, c: char): (r: Option<nat>)
    ensures r.None? <==> c !in s
    ensures r.Some? ==> r.value < |s| && s[r.value] == c && c !in s[r.value + 1..]
  {
    if s == [] then None
    else if s[|s| - 1] == c then Some(|s| - 1)
    else LastIndexOf(s[..|s| - 1], c)
  }

  /** The first `c` in `a + [c] + b` is the one after `a` when `a` has none. */
  lemma IndexOfAfter(a: string, c: char, b: string)
    requires c !in a
    ensures IndexOf(a + [c] + b, c) == Some(|a|)
  {
    var s := a + [c] + b;
    var r := IndexOf(s, c);
    assert s[|a|] == c;
  }

  /** The last `c` in `a + [c] + b` is the one after `a` when `b` has none. */
  lemma LastIndexOfBefore(a: string, c: char, b: string)
    requires c !in b
    ensures LastIndexOf(a + [c] + b, c) == Some(|a|)
  {
    var s := a + [c] + b;
    var r := LastIndexOf(s, c);
    assert s[|a|] == c;
  }

  /** Adding an item at the end adds one separator and the item. */
  lemma {:induction false} JoinSnoc(items: seq<string>, x: string)
    requires items != []
    ensures Join(items + [x]) == Join(items) + Separator + x
  {
    if |items| == 1 {
      assert items + [x] == [items[0], x];
    } else {
      assert (items + [x])[1..] == items[1..] + [x];
      JoinSnoc(items[1..], x);
    }
  }

  /** `Split` undoes `Join` when no item is empty or holds a comma. */
  lemma {:induction false} SplitJoin(items: seq<string>)
    requires forall i :: 0 <= i < |items| ==> items[i] != [] && ',' !in items[i]
    ensures Split(Join(items)) == items
  {
    if |items| == 1 {
      assert IndexOf(items[0], ',') == None;
    } else if |items| > 1 {
      var rest := Join(items[1..]);
      var s := Join(items);
      assert s == items[0] + [','] + (" " + rest);
      IndexOfAfter(items[0], ',', " " + rest);
      assert s[..|items[0]|] == items[0];
      assert s[|items[0]| + |Separator|..] == rest;
      SplitJoin(items[1..]);
    }
  }
}
