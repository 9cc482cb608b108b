/** The `todos` table: one row per todo item. */
module Models {
  import opened Wrappers

  /** Declared width of the `title` column, `String(200)`. */
  const MaxTitleLength := 200

  /**
   * A stored row. `title` is a non-null string column, `description` a
   * nullable text column, `is_completed` non-null, and `created_at` a
   * non-null timestamp, here a logical time assigned by the store.
   */
  datatype Todo = Todo(
    id: int,
    title: string,
    description: Option<string>,
    isCompleted: bool,
    createdAt: int)

  /** A title the `String(200)` column accepts; an empty title is accepted. */
  predicate TitleFits(title: string) {
    |title| <= MaxTitleLength
  }

  /**
   * A title the `String(200)` column accepts on commit. Excess characters
   * that are all spaces are cut off without an error, as the SQL standard's
   * store rule for character strings says; any other character beyond the
   * column width makes the commit fail.
   */
  predicate TitleAccepted(title: string) {
    forall i :: MaxTitleLength <= i < |title| ==> title[i] == ' '
  }

  /** `n` spaces. */
  function Spaces(n: nat): (s: string)
    ensures |s| == n && forall i :: 0 <= i < n ==> s[i] == ' '
  {
    seq(n, _ => ' ')
  }

  /**
   * The title as the column stores an accepted one: cut to the column
   * width, losing only trailing spaces.
   */
  function StoredTitle(title: string): (s: string)
    ensures TitleFits(s)
    ensures s <= title
    ensures TitleFits(title) ==> s == title
    ensures TitleAccepted(title) ==> forall i :: |s| <= i < |title| ==> title[i] == ' '
  {
    if |title| <= MaxTitleLength then title else title[..MaxTitleLength]
  }

  /**
   * A title of full width followed by spaces is accepted and stored as the
   * full-width part, while one more character of any other kind is refused.
   */
  lemma TrailingSpacesCut(title: string, spaces: nat, c: char)
    requires |title| == MaxTitleLength && c != ' '
    ensures TitleAccepted(title + Spaces(spaces))
    ensures StoredTitle(title + Spaces(spaces)) == title
    ensures !TitleAccepted(title + Spaces(spaces) + [c])
  {
    var longer := title + Spaces(spaces) + [c];
    assert longer[MaxTitleLength + spaces] == c;
  }

  /** A row as a commit stores it: its title cut to the column width. */
  function Committed(t: Todo): (r: Todo)
    ensures r.title == StoredTitle(t.title)
    ensures r.(title := t.title) == t
    ensures TitleFits(t.title) ==> r == t
  {
    t.(title := StoredTitle(t.title))
  }

  /** Column constraints of a row: a positive key and a title that fits. */
  predicate ValidRow(t: Todo) {
    t.id >= 1 && TitleFits(t.title)
  }

  /**
   * The row an insert produces: `is_completed` takes its column default
   * `False`; `id` and `created_at` are supplied by the database.
   */
  function NewRow(id: int, title: string, description: Option<string>, createdAt: int): Todo
  {
    Todo(id, title, description, false, createdAt)
  }
}
