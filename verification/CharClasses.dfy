/** Character classes of a glob: what a specification between brackets matches, and the syntax
    check that keeps classes analysable. */
module CharClasses {
  import Text

  /** One member of a class: every character from `lo` to `hi`. A single character is its own range. */
  datatype Item = Item(lo: char, hi: char)

  /** The members written in a class, read from the left: `a-b` is a range when something follows
      the hyphen, otherwise each character stands for itself. */
  function Items(content: string): (items: seq<Item>)
    ensures content != "" ==> items != [] && items[0].lo == content[0]
    ensures forall k :: 0 <= k < |items| ==> items[k].lo in content && items[k].hi in content
  {
    if content == "" then []
    else if |content| > 2 && content[1] == '-' then [Item(content[0], content[2])] + Items(content[3..])
    else [Item(content[0], content[0])] + Items(content[1..])
  }

  predicate Holds(items: seq<Item>, c: char) {
    exists k :: 0 <= k < |items| && items[k].lo <= c <= items[k].hi
  }

  predicate IsNegated(specification: string) {
    |specification| > 0 && specification[0] == '!'
  }

  function Content(specification: string): string {
    if IsNegated(specification) then specification[1..] else specification
  }

  /** The meaning of a class: its members, or all other characters when it starts with `!`. */
  predicate Denotes(specification: string, c: char) {
    Holds(Items(Content(specification)), c) != IsNegated(specification)
  }

  lemma HoldsCons(item: Item, items: seq<Item>, c: char)
    ensures Holds([item] + items, c) <==> item.lo <= c <= item.hi || Holds(items, c)
  {
    if Holds(items, c) {
      var k :| 0 <= k < |items| && items[k].lo <= c <= items[k].hi;
      assert ([item] + items)[k + 1] == items[k];
    }
    if item.lo <= c <= item.hi {
      assert ([item] + items)[0] == item;
    }
  }

  lemma ReadsRange(content: string, index: nat, c: char)
    requires index + 2 < |content| && content[index + 1] == '-'
    ensures Holds(Items(content[index..]), c) <==>
              content[index] <= c <= content[index + 2] || Holds(Items(content[index + 3..]), c)
  {
    var tail := content[index..];
    assert tail[3..] == content[index + 3..];
    HoldsCons(Item(tail[0], tail[2]), Items(tail[3..]), c);
  }

  lemma ReadsSingle(content: string, index: nat, c: char)
    requires index < |content| && !(index + 2 < |content| && content[index + 1] == '-')
    ensures Holds(Items(content[index..]), c) <==> content[index] == c || Holds(Items(content[index + 1..]), c)
  {
    var tail := content[index..];
    assert tail[1..] == content[index + 1..];
    HoldsCons(Item(tail[0], tail[0]), Items(tail[1..]), c);
  }

  /** The scan over the specification decides membership. */
  method ClassMatches(specification: string, character: char) returns (matches: bool)
    ensures matches == Denotes(specification, character)
  {
    var negated := IsNegated(specification);
    var content := Content(specification);
    var matched := false;
    var index := 0;
    assert content[0..] == content;
    while index < |content|
      invariant 0 <= index <= |content|
      invariant Holds(Items(content), character) <==> matched || Holds(Items(content[index..]), character)
    {
      if index + 2 < |content| && content[index + 1] == '-' {
        ReadsRange(content, index, character);
        matched := matched || content[index] <= character <= content[index + 2];
        index := index + 3;
      } else {
        ReadsSingle(content, index, character);
        matched := matched || content[index] == character;
        index := index + 1;
      }
    }
    return if negated then !matched else matched;
  }

  // ----- the syntax check

  /** A hyphen between two characters never separates a larger from a smaller one. */
  predicate Ascending(content: string) {
    forall k :: 0 < k < |content| - 1 && content[k] == '-' ==> content[k - 1] <= content[k + 1]
  }

  predicate HasDoubleHyphen(s: string) {
    exists k :: 0 <= k < |s| - 1 && s[k] == '-' && s[k + 1] == '-'
  }

  predicate IsPlainClass(specification: string) {
    && specification != ""
    && !IsNegated(specification)
    && '[' !in specification
    && !HasDoubleHyphen(specification)
    && Ascending(specification)
  }

  /** A `[` at position `p` opens a class that is closed and plain. */
  predicate SupportedAt(pattern: string, p: nat)
    requires p < |pattern|
  {
    pattern[p] == '[' ==>
      var closing := Text.Find(pattern, ']', p + 1);
      closing < |pattern| && IsPlainClass(pattern[p + 1..closing])
  }

  ghost predicate ClassesAreSupported(pattern: string) {
    forall p :: 0 <= p < |pattern| ==> SupportedAt(pattern, p)
  }

  method RangesAscend(content: string) returns (ok: bool)
    ensures ok <==> Ascending(content)
  {
    for index := 0 to |content|
      invariant forall k :: 0 < k < index && k < |content| - 1 && content[k] == '-' ==> content[k - 1] <= content[k + 1]
    {
      if content[index] == '-' && 0 < index < |content| - 1 && content[index - 1] > content[index + 1] {
        return false;
      }
    }
    return true;
  }

  method CheckSpecification(specification: string) returns (ok: bool)
    ensures ok <==> IsPlainClass(specification)
  {
    var content := Content(specification);
    if content == "" || IsNegated(specification) || '[' in specification || HasDoubleHyphen(specification) {
      return false;
    }
    ok := RangesAscend(content);
  }

  /** The scan visits one class after the other, yet accepts exactly when every `[` is supported:
      inside an accepted class there is no `[`. */
  method ValidateClassSyntax(pattern: string) returns (ok: bool)
    ensures ok <==> ClassesAreSupported(pattern)
  {
    var position := 0;
    while position < |pattern|
      invariant 0 <= position <= |pattern|
      invariant forall p :: 0 <= p < position ==> SupportedAt(pattern, p)
    {
      var opening := Text.Find(pattern, '[', position);
      if opening == |pattern| { return true; }
      var closing := Text.Find(pattern, ']', opening + 1);
      var specification := if closing < |pattern| then pattern[opening + 1..closing] else "";
      var plain := CheckSpecification(specification);
      if closing == |pattern| || !plain {
        assert !SupportedAt(pattern, opening);
        return false;
      }
      ClassIsSkipped(pattern, opening, closing);
      position := closing + 1;
    }
    return true;
  }

  lemma ClassIsSkipped(pattern: string, opening: nat, closing: nat)
    requires opening < closing < |pattern| && '[' !in pattern[opening + 1..closing] && pattern[closing] == ']'
    ensures forall p :: opening < p <= closing ==> SupportedAt(pattern, p)
  {
    forall p | opening < p <= closing ensures SupportedAt(pattern, p) {
      if p < closing {
        assert pattern[p] == pattern[opening + 1..closing][p - opening - 1];
      }
    }
  }

  /** A plain class has a smallest written character, and it belongs to the class. */
  lemma PlainClassIsInhabited(specification: string)
    requires IsPlainClass(specification)
    ensures Denotes(specification, specification[0])
  {
    var items := Items(specification);
    assert items[0].lo <= specification[0] <= items[0].hi by {
      if |specification| > 2 && specification[1] == '-' {
        assert specification[0] <= specification[2];
      }
    }
  }

  /** Two classes without negation that share a character share one written in them: the larger
      of the two lower ends. */
  lemma SharedEndpoint(left: string, right: string, c: char) returns (d: char)
    requires !IsNegated(left) && !IsNegated(right)
    requires Denotes(left, c) && Denotes(right, c)
    ensures Denotes(left, d) && Denotes(right, d)
    ensures d in left || d in right
  {
    var i :| 0 <= i < |Items(left)| && Items(left)[i].lo <= c <= Items(left)[i].hi;
    var j :| 0 <= j < |Items(right)| && Items(right)[j].lo <= c <= Items(right)[j].hi;
    var a, b := Items(left)[i], Items(right)[j];
    d := if a.lo >= b.lo then a.lo else b.lo;
    assert a.lo <= d <= a.hi && b.lo <= d <= b.hi;
  }

  /** A class without negation that matches anything matches a character written in it. */
  lemma WrittenMember(specification: string, c: char) returns (d: char)
    requires !IsNegated(specification) && Denotes(specification, c)
    ensures Denotes(specification, d) && d in specification
  {
    d := SharedEndpoint(specification, specification, c);
  }
}
