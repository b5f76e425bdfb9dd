/** The menu catalog (backend/src/controllers/menuController.js): categories
    with unique trimmed names, menu items with a price and an active flag, and
    the two read handlers. The writing handlers are methods of
    `StoreModel.Store`. */
module Menu {
  import opened Common
  import opened Rows
  import opened Sorting

  /** The characters `String.prototype.trim` removes: white space and line
      terminators. */
  predicate IsSpace(c: char)
    ensures c == ' ' || c == '\t' || c == '\n' || c == '\r' ==> IsSpace(c)
    ensures 'a' <= c <= 'z' || 'A' <= c <= 'Z' || '0' <= c <= '9' ==> !IsSpace(c)
  {
    || c == '\t' || c == '\n' || c == '\U{B}' || c == '\U{C}' || c == '\r' || c == ' '
    || c == '\U{A0}' || c == '\U{1680}' || ('\U{2000}' <= c <= '\U{200A}')
    || c == '\U{2028}' || c == '\U{2029}' || c == '\U{202F}' || c == '\U{205F}'
    || c == '\U{3000}' || c == '\U{FEFF}'
  }

  /** Nothing but white space (or nothing at all). */
  predicate Blank(s: string) {
    forall i :: 0 <= i < |s| ==> IsSpace(s[i])
  }

  function TrimStart(s: string): (r: string)
    ensures |r| <= |s| && r == s[|s| - |r|..]
    ensures Blank(s[..|s| - |r|])
    ensures r == [] || !IsSpace(r[0])
    decreases |s|
  {
    if s != [] && IsSpace(s[0]) then
      var r := TrimStart(s[1..]);
      assert s[..|s| - |r|] == [s[0]] + s[1..][..|s| - 1 - |r|];
      r
    else s
  }

  function TrimEnd(s: string): (r: string)
    ensures |r| <= |s| && r == s[..|r|]
    ensures Blank(s[|r|..])
    ensures r == [] || !IsSpace(r[|r| - 1])
    decreases |s|
  {
    if s != [] && IsSpace(s[|s| - 1]) then
      var r := TrimEnd(s[..|s| - 1]);
      assert s[|r|..] == s[..|s| - 1][|r|..] + [s[|s| - 1]];
      r
    else s
  }

  /** `String(s).trim()`: the text without its leading and trailing white
      space, that is a middle slice of it with only white space around it and
      at neither end; empty exactly when the text is blank. */
  function Trim(s: string): (r: string)
    ensures exists a, b :: 0 <= a <= b <= |s| && r == s[a..b] && Blank(s[..a]) && Blank(s[b..])
    ensures r == [] <==> Blank(s)
    ensures r == [] || (!IsSpace(r[0]) && !IsSpace(r[|r| - 1]))
  {
    var t := TrimStart(s);
    var r := TrimEnd(t);
    MiddleSlice(s, |s| - |t|, t, r);
    r
  }

  /** Cutting white space off the front of a text and then off the back
      leaves a middle slice of it, empty exactly when the text is blank. */
  lemma MiddleSlice(s: string, a: nat, t: string, r: string)
    requires a <= |s| && t == s[a..] && Blank(s[..a]) && (t == [] || !IsSpace(t[0]))
    requires |r| <= |t| && r == t[..|r|] && Blank(t[|r|..])
    ensures a + |r| <= |s| && r == s[a..a + |r|] && Blank(s[a + |r|..])
    ensures r == [] <==> Blank(s)
  {
    assert s[a + |r|..] == t[|r|..];
    if r == [] {
      assert t[|r|..] == t;
      assert t == [];
      assert s[..a] == s;
    } else {
      assert s[a] == t[0];
    }
  }

  /** Trimming twice trims nothing more. */
  lemma TrimIdempotent(s: string)
    ensures Trim(Trim(s)) == Trim(s)
  {
    var r := Trim(s);
    assert TrimStart(r) == r;
    assert TrimEnd(r) == r;
  }

  datatype Category = Category(id: int, name: string)

  function CategoryKey(c: Category): int { c.id }

  /** The unique constraint on category names. */
  ghost predicate NamesUnique(cats: seq<Category>) {
    forall i, j :: 0 <= i < j < |cats| ==> cats[i].name != cats[j].name
  }

  /** Some category other than `except` already carries `name`: exactly the
      case in which adding a category so named, or renaming the category
      `except` to it, would break the unique constraint. */
  predicate NameTaken(cats: seq<Category>, name: string, except: Option<int>)
    ensures except.None? && NamesUnique(cats) && !NameTaken(cats, name, except) ==>
      forall c: Category :: c.name == name ==> NamesUnique(cats + [c])
    ensures except.None? && NameTaken(cats, name, except) ==>
      forall c: Category :: c.name == name ==> !NamesUnique(cats + [c])
    ensures forall k :: 0 <= k < |cats| ==>
      (&& except == Some(cats[k].id) && NamesUnique(cats) && !NameTaken(cats, name, except)
       && (forall i :: 0 <= i < |cats| && i != k ==> cats[i].id != cats[k].id))
      ==> NamesUnique(cats[k := cats[k].(name := name)])
  {
    assert forall c: Category :: NamesUnique(cats + [c]) <==>
      NamesUnique(cats) && forall i :: 0 <= i < |cats| ==> cats[i].name != c.name by {
      forall c: Category { AppendName(cats, c); }
    }
    exists k :: 0 <= k < |cats| && cats[k].name == name && Some(cats[k].id) != except
  }

  /** A category added at the end keeps the names unique exactly when no
      category already carries its name. */
  lemma AppendName(cats: seq<Category>, c: Category)
    ensures NamesUnique(cats + [c]) <==>
      NamesUnique(cats) && forall i :: 0 <= i < |cats| ==> cats[i].name != c.name
  {
    var s := cats + [c];
    if NamesUnique(s) {
      forall i | 0 <= i < |cats| ensures cats[i].name != c.name {
        assert s[i] == cats[i] && s[|cats|] == c;
      }
      forall i, j | 0 <= i < j < |cats| ensures cats[i].name != cats[j].name {
        assert s[i] == cats[i] && s[j] == cats[j];
      }
    } else if NamesUnique(cats) {
      var i, j :| 0 <= i < j < |s| && s[i].name == s[j].name;
      assert s[i] == cats[i];
    }
  }

  function ByName(a: Category, b: Category): bool { TextLe(a.name, b.name) }

  /** getCategories: every category once, by name. */
  function CategoriesByName(cats: seq<Category>): (r: seq<Category>)
    ensures multiset(r) == multiset(cats)
    ensures forall i, j :: 0 <= i < j < |r| ==> TextLe(r[i].name, r[j].name)
  {
    forall a: Category, b: Category ensures ByName(a, b) || ByName(b, a) {
      TextLeTotal(a.name, b.name);
    }
    forall a: Category, b: Category, c: Category | ByName(a, b) && ByName(b, c) ensures ByName(a, c) {
      TextLeTransitive(a.name, b.name, c.name);
    }
    var r := SortBy(cats, ByName);
    forall i, j | 0 <= i < j < |r| ensures TextLe(r[i].name, r[j].name) {
      SortedPairwise(r, ByName, i, j);
    }
    r
  }

  datatype MenuItem = MenuItem(id: int, name: string, categoryId: Option<int>, basePrice: int, isActive: bool)

  function MenuItemKey(it: MenuItem): int { it.id }

  /** `SELECT COUNT(*) FROM menu_items WHERE category_id = $1`: positive
      exactly when some item is filed under the category. */
  function ItemsInCategory(items: seq<MenuItem>, categoryId: int): (n: nat)
    ensures n > 0 <==> exists k :: 0 <= k < |items| && items[k].categoryId == Some(categoryId)
  {
    if items == [] then 0
    else
      var rest := ItemsInCategory(items[1..], categoryId);
      assert forall k :: 0 < k < |items| ==> items[k] == items[1..][k - 1];
      (if items[0].categoryId == Some(categoryId) then 1 else 0) + rest
  }

  /** The `active` query parameter: only the texts "true" and "false" filter. */
  function ActiveFilter(q: Option<string>): (r: Option<bool>)
    ensures r == Some(true) <==> q == Some("true")
    ensures r == Some(false) <==> q == Some("false")
  {
    if q == Some("true") then Some(true)
    else if q == Some("false") then Some(false)
    else None
  }

  /** An item passes every filter that was supplied: with no filter every
      item passes, and an item without a category never passes a category
      filter (`NULL = $1` is not true). */
  predicate Matches(it: MenuItem, active: Option<bool>, categoryId: Option<int>)
    ensures active.None? && categoryId.None? ==> Matches(it, active, categoryId)
    ensures Matches(it, active, categoryId) && categoryId.Some? ==> it.categoryId.Some?
  {
    && (active.None? || it.isActive == active.value)
    && (categoryId.None? || it.categoryId == categoryId)
  }

  /** An item with the name of its category (`LEFT JOIN menu_categories`). */
  datatype MenuRow = MenuRow(item: MenuItem, categoryName: Option<string>)

  /** The name of the referenced category, or NULL. */
  function CategoryNameOf(cats: seq<Category>, categoryId: Option<int>): (r: Option<string>)
    ensures r.Some? <==> categoryId.Some? && exists k :: 0 <= k < |cats| && cats[k].id == categoryId.value
    ensures r.Some? ==> exists k :: 0 <= k < |cats| && cats[k].id == categoryId.value && cats[k].name == r.value
  {
    if categoryId.None? then None
    else match Find(cats, CategoryKey, categoryId.value)
      case None => None
      case Some(k) => Some(cats[k].name)
  }

  /** The filtered join: every matching item as many times as it is stored,
      with its category name, and nothing else. */
  function RowsMatching(items: seq<MenuItem>, cats: seq<Category>, active: Option<bool>, categoryId: Option<int>): (r: seq<MenuRow>)
    ensures forall row :: row in r <==>
      row.item in items && Matches(row.item, active, categoryId) && row.categoryName == CategoryNameOf(cats, row.item.categoryId)
    ensures forall it: MenuItem ::
      multiset(r)[MenuRow(it, CategoryNameOf(cats, it.categoryId))] ==
      if Matches(it, active, categoryId) then multiset(items)[it] else 0
  {
    if items == [] then []
    else
      var rest := RowsMatching(items[1..], cats, active, categoryId);
      assert items == [items[0]] + items[1..];
      if Matches(items[0], active, categoryId)
      then [MenuRow(items[0], CategoryNameOf(cats, items[0].categoryId))] + rest
      else rest
  }

  /** `ORDER BY mc.name NULLS LAST, mi.name`. */
  function MenuOrder(a: MenuRow, b: MenuRow): bool {
    match (a.categoryName, b.categoryName)
    case (Some(x), Some(y)) => (x != y && TextLe(x, y)) || (x == y && TextLe(a.item.name, b.item.name))
    case (Some(_), None) => true
    case (None, Some(_)) => false
    case (None, None) => TextLe(a.item.name, b.item.name)
  }

  lemma MenuOrderIsPreorder()
    ensures Total(MenuOrder) && Transitive(MenuOrder)
  {
    forall a: MenuRow, b: MenuRow ensures MenuOrder(a, b) || MenuOrder(b, a) {
      TextLeTotal(a.item.name, b.item.name);
      if a.categoryName.Some? && b.categoryName.Some? {
        TextLeTotal(a.categoryName.value, b.categoryName.value);
      }
    }
    forall a: MenuRow, b: MenuRow, c: MenuRow | MenuOrder(a, b) && MenuOrder(b, c) ensures MenuOrder(a, c) {
      if TextLe(a.item.name, b.item.name) && TextLe(b.item.name, c.item.name) {
        TextLeTransitive(a.item.name, b.item.name, c.item.name);
      }
      if a.categoryName.Some? && b.categoryName.Some? && c.categoryName.Some? {
        var x, y, z := a.categoryName.value, b.categoryName.value, c.categoryName.value;
        if x != y && y != z && TextLe(x, y) && TextLe(y, z) {
          TextLeTransitive(x, y, z);
          if x == z { TextLeAntisymmetric(x, y); }
        }
      }
    }
  }

  /** getMenuItems: exactly the items passing every supplied filter (active
      flag, category), each with its category name, ordered by category name
      with uncategorised items last, then by item name. */
  function MenuItems(items: seq<MenuItem>, cats: seq<Category>, activeQuery: Option<string>, categoryQuery: Option<int>): (r: seq<MenuRow>)
    ensures forall row :: row in r <==>
      && row.item in items
      && Matches(row.item, ActiveFilter(activeQuery), categoryQuery)
      && row.categoryName == CategoryNameOf(cats, row.item.categoryId)
    ensures forall it: MenuItem ::
      multiset(r)[MenuRow(it, CategoryNameOf(cats, it.categoryId))] ==
      if Matches(it, ActiveFilter(activeQuery), categoryQuery) then multiset(items)[it] else 0
    ensures multiset(r) == multiset(RowsMatching(items, cats, ActiveFilter(activeQuery), categoryQuery))
    ensures forall i, j :: 0 <= i < j < |r| ==> MenuOrder(r[i], r[j])
    ensures forall i, j :: 0 <= i < j < |r| && r[i].categoryName.None? ==> r[j].categoryName.None?
  {
    var rows := RowsMatching(items, cats, ActiveFilter(activeQuery), categoryQuery);
    MenuOrderIsPreorder();
    var r := SortBy(rows, MenuOrder);
    SortByKeepsRows(rows, MenuOrder);
    forall i, j | 0 <= i < j < |r| ensures MenuOrder(r[i], r[j]) {
      SortedPairwise(r, MenuOrder, i, j);
    }
    r
  }
}
