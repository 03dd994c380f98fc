/** What the screen shows of the list: the rows of the selected tab and the "items left" footer. */
module TodoDisplay {
  import opened TodoItem

  /** Whether a row is shown under tab `tab`: "All" shows every item, "Active" the
      items not done, and any other tab value the items done. */
  predicate Shown(tab: string, it: Item): (b: bool)
    ensures tab == "All" ==> b
    ensures tab != "All" ==> (b <==> it.isComplete == (tab != "Active"))
  {
    if tab == "All" then true
    else if tab == "Active" then IsActive(it)
    else IsCompleted(it)
  }

  /** The tabs "Active" and any value other than "All" and "Active" split the items between them. */
  lemma ShownComplementary(tab: string, it: Item)
    requires tab != "All" && tab != "Active"
    ensures Shown("Active", it) != Shown(tab, it)
  {
  }

  /** The rows of the list for the selected tab: items of the list, in list order,
      exactly those the tab selects. */
  function Visible(todos: seq<Item>, tab: string): (r: seq<Item>)
    ensures IsSubsequence(r, todos)
    ensures forall x :: x in r <==> x in todos && Shown(tab, x)
  {
    Filter(todos, it => Shown(tab, it))
  }

  /** Tab "All" shows the whole list. */
  lemma VisibleAll(todos: seq<Item>)
    ensures Visible(todos, "All") == todos
  {
    FilterKeepsAll(todos, it => Shown("All", it));
  }

  /** Tab "Active" shows the items not done: what "Clear completed" keeps. */
  lemma VisibleActive(todos: seq<Item>)
    ensures Visible(todos, "Active") == Filter(todos, IsActive)
  {
    FilterAgrees(todos, it => Shown("Active", it), IsActive);
  }

  /** Any tab value other than "All" and "Active" shows the items done. */
  lemma VisibleOther(todos: seq<Item>, tab: string)
    requires tab != "All" && tab != "Active"
    ensures Visible(todos, tab) == Filter(todos, IsCompleted)
  {
    FilterAgrees(todos, it => Shown(tab, it), IsCompleted);
  }

  /** The text each row displays, in row order. */
  function Texts(rows: seq<Item>): (r: seq<string>)
    ensures |r| == |rows| && forall i :: 0 <= i < |rows| ==> r[i] == rows[i].text
  {
    if rows == [] then [] else [rows[0].text] + Texts(rows[1..])
  }

  /** The number of items not done, whichever tab is selected. */
  function ItemsLeft(todos: seq<Item>): (n: nat)
    ensures n + |Filter(todos, IsCompleted)| == |todos|
    ensures n <= |todos|
  {
    FilterSplit(todos, IsActive, IsCompleted);
    |Filter(todos, IsActive)|
  }

  /** The count left is the number of rows tab "Active" shows. */
  lemma ItemsLeftIsActiveRows(todos: seq<Item>)
    ensures ItemsLeft(todos) == |Visible(todos, "Active")|
  {
    VisibleActive(todos);
  }

  /** Adding an item not yet done raises the count left by one. */
  lemma ItemsLeftAppend(todos: seq<Item>, it: Item)
    requires !it.isComplete
    ensures ItemsLeft(todos + [it]) == ItemsLeft(todos) + 1
  {
    FilterAppend(todos, it, IsActive);
  }

  /** Nothing is left exactly when every item is done. */
  lemma ItemsLeftZero(todos: seq<Item>)
    ensures ItemsLeft(todos) == 0 <==> forall i :: 0 <= i < |todos| ==> todos[i].isComplete
  {
    var r := Filter(todos, IsActive);
    if ItemsLeft(todos) != 0 {
      assert r[0] in r;
      var i :| 0 <= i < |todos| && todos[i] == r[0];
    } else {
      forall i | 0 <= i < |todos| ensures todos[i].isComplete {
        assert todos[i] in todos && todos[i] !in r;
      }
    }
  }

  /** Toggling every item turns the items left into the items done. */
  lemma {:induction false} ItemsLeftFlipAll(todos: seq<Item>)
    ensures ItemsLeft(FlipAll(todos)) == |todos| - ItemsLeft(todos)
  {
    if todos != [] {
      ItemsLeftFlipAll(todos[1..]);
      assert FlipAll(todos)[1..] == FlipAll(todos[1..]);
    }
  }

  /** Keeping the items not done leaves nothing done and the same number left. */
  lemma ClearedHasNoneDone(todos: seq<Item>)
    ensures ItemsLeft(Filter(todos, IsActive)) == ItemsLeft(todos)
    ensures Filter(Filter(todos, IsActive), IsCompleted) == []
  {
    FilterIdempotent(todos, IsActive);
  }

  /** A decimal digit as a character. */
  function DigitChar(d: nat): (c: char)
    requires d < 10
    ensures '0' <= c <= '9' && c as int - '0' as int == d
  {
    ('0' as int + d) as char
  }

  predicate IsDigit(c: char) { '0' <= c <= '9' }

  predicate AllDigits(s: string) { forall i :: 0 <= i < |s| ==> IsDigit(s[i]) }

  /** Decimal notation of `n`, without leading zeros: Swift's string interpolation of an `Int` that is not negative. */
  function Decimal(n: nat): (r: string)
    ensures |r| >= 1 && AllDigits(r)
    ensures |r| > 1 ==> r[0] != '0'
  {
    if n < 10 then [DigitChar(n)] else Decimal(n / 10) + [DigitChar(n % 10)]
  }

  /** The number a string of decimal digits denotes. */
  function DigitsValue(s: string): nat
    requires AllDigits(s)
  {
    if s == [] then 0 else DigitsValue(s[..|s| - 1]) * 10 + (s[|s| - 1] as int - '0' as int)
  }

  /** Reading back the decimal notation of `n` gives `n`. */
  lemma {:induction false} DecimalRoundTrip(n: nat)
    ensures DigitsValue(Decimal(n)) == n
  {
    if n >= 10 {
      DecimalRoundTrip(n / 10);
      var s := Decimal(n);
      assert s[..|s| - 1] == Decimal(n / 10);
    }
  }

  /** The longest prefix of `s` made of digits: the number a reader sees at the start of the label. */
  function LeadingDigits(s: string): (r: string)
    ensures AllDigits(r) && |r| <= |s|
  {
    if s == [] || !IsDigit(s[0]) then [] else [s[0]] + LeadingDigits(s[1..])
  }

  lemma {:induction false} LeadingDigitsOf(d: string, t: string)
    requires AllDigits(d)
    requires t != [] && !IsDigit(t[0])
    ensures LeadingDigits(d + t) == d
  {
    if d != [] {
      LeadingDigitsOf(d[1..], t);
      assert (d + t)[1..] == d[1..] + t;
    }
  }

  /** What follows the count tells one item from several. */
  lemma LabelEnding(d: string, n: nat)
    requires |d| >= 1 && AllDigits(d)
    ensures var l := d + " item" + (if n == 1 then "" else "s") + " left";
      && |l| == |d| + (if n == 1 then 10 else 11)
      && l[..|d|] == d && l[|d|] == ' '
      && (n == 1 <==> l[|l| - 10..] == " item left")
      && (n != 1 <==> l[|l| - 11..] == " items left")
  {
    var l := d + " item" + (if n == 1 then "" else "s") + " left";
    if n == 1 {
      assert l == d + " item left";
      assert l[|l| - 10..] == " item left";
      assert l[|l| - 11..][0] == d[|d| - 1];
    } else {
      assert l == d + " items left";
      assert l[|l| - 11..] == " items left";
      assert l[|l| - 10..][0] == 'i';
    }
  }

  /** The footer text "N item left" / "N items left": the count in decimal, then
      " item left" for a count of one and " items left" otherwise. */
  function ItemsLeftLabel(n: nat): (l: string)
    ensures |l| == |Decimal(n)| + (if n == 1 then 10 else 11)
    ensures l[..|Decimal(n)|] == Decimal(n) && l[|Decimal(n)|] == ' '
    ensures n == 1 <==> l[|l| - 10..] == " item left"
    ensures n != 1 <==> l[|l| - 11..] == " items left"
  {
    LabelEnding(Decimal(n), n);
    Decimal(n) + " item" + (if n == 1 then "" else "s") + " left"
  }

  /** The label opens with the count, which a reader reads back as `n`. */
  lemma ItemsLeftLabelReads(n: nat)
    ensures DigitsValue(LeadingDigits(ItemsLeftLabel(n))) == n
  {
    var l := ItemsLeftLabel(n);
    var d := Decimal(n);
    var t := l[|d|..];
    assert t[0] == ' ';
    assert l == l[..|d|] + t;
    LeadingDigitsOf(d, t);
    DecimalRoundTrip(n);
  }
}
