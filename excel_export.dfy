/** The table `generatePostsExcelFile` writes, and what reading that table back
    through the import row scan gives. */
module ExcelExport {
  import opened Wrappers
  import opened JavaText
  import opened Spreadsheet
  import opened PostStore
  import opened ExcelImport

  const SHEET_NAME := "Posts"

  /** Row 0 of the export. */
  function HeaderRow(): Row {
    map[0 := Str("ID"), 1 := Str("Title"), 2 := Str("Description")]
  }

  /** The row written for one post: id, title and description in columns 0, 1, 2.
      The id is unboxed, so a post without one cannot be written. */
  function PostRow(post: PostDto): Row
    requires post.id.Some?
  {
    map[0 := Num(post.id.value), 1 := Str(post.title), 2 := Str(post.description)]
  }

  /** `sheet` is the export of `posts`: a sheet named "Posts" with the header row
      and then one row per post, in the order of `posts`. */
  ghost predicate IsExportOf(sheet: Sheet, posts: seq<PostDto>) {
    && sheet.name == SHEET_NAME
    && |sheet.rows| == |posts| + 1
    && sheet.rows[0] == Some(HeaderRow())
    && (forall k :: 0 <= k < |posts| ==> posts[k].id.Some? && sheet.rows[k + 1] == Some(PostRow(posts[k])))
  }

  /** The export read cell by cell: row 0 holds "ID", "Title", "Description";
      row j holds the id, title and description of post j - 1 in columns 0, 1
      and 2; no row has a cell beyond column 2; the last row is row |posts|. */
  lemma ExportLayout(sheet: Sheet, posts: seq<PostDto>)
    requires IsExportOf(sheet, posts)
    ensures sheet.name == "Posts"
    ensures GetRow(sheet.rows, |posts| + 1) == None
    ensures sheet.rows[0].Some?
    ensures GetCell(sheet.rows[0].value, 0) == Some(Str("ID"))
    ensures GetCell(sheet.rows[0].value, 1) == Some(Str("Title"))
    ensures GetCell(sheet.rows[0].value, 2) == Some(Str("Description"))
    ensures forall j :: 1 <= j <= |posts| ==>
      && sheet.rows[j].Some?
      && GetCell(sheet.rows[j].value, 0) == Some(Num(posts[j - 1].id.value))
      && GetCell(sheet.rows[j].value, 1) == Some(Str(posts[j - 1].title))
      && GetCell(sheet.rows[j].value, 2) == Some(Str(posts[j - 1].description))
    ensures forall j, c :: 0 <= j <= |posts| && 3 <= c ==>
      sheet.rows[j].Some? && GetCell(sheet.rows[j].value, c) == None
  {
    forall j | 1 <= j <= |posts|
      ensures sheet.rows[j] == Some(PostRow(posts[j - 1]))
    {
      assert sheet.rows[(j - 1) + 1] == Some(PostRow(posts[j - 1]));
    }
    forall j, c | 0 <= j <= |posts| && 3 <= c
      ensures sheet.rows[j].Some? && GetCell(sheet.rows[j].value, c) == None
    {
      if j > 0 {
        assert c !in PostRow(posts[j - 1]);
      } else {
        assert c !in HeaderRow();
      }
    }
  }

  /** What the import makes of an exported row: the import reads column 0 as the
      title and column 1 as the description, so the title becomes the decimal id
      and the description becomes the (trimmed) old title. */
  function Reimported(post: PostDto): PostDto
    requires post.id.Some?
  {
    PostDto(None, LongToString(post.id.value), Trim(post.title))
  }

  lemma ExportedRowIsCandidate(post: PostDto)
    requires post.id.Some?
    ensures HasTitle(PostRow(post))
    ensures ToCandidate(PostRow(post)) == Reimported(post)
  {
    var row := PostRow(post);
    assert GetCell(row, 0) == Some(Num(post.id.value));
    assert GetCell(row, 1) == Some(Str(post.title));
    LongToStringIsTrimmed(post.id.value);
  }

  /** Scanning rows 1 .. n-1 of an export yields the reimported form of the first
      n-1 posts and no warnings. */
  lemma {:induction false} ScanOfExportUpTo(sheet: Sheet, posts: seq<PostDto>, n: nat)
    requires IsExportOf(sheet, posts)
    requires 1 <= n <= |posts| + 1
    ensures |ScanUpTo(sheet.rows, n).candidates| == n - 1
    ensures forall k :: 0 <= k < n - 1 ==> ScanUpTo(sheet.rows, n).candidates[k] == Reimported(posts[k])
    ensures ScanUpTo(sheet.rows, n).warnings == []
  {
    if n > 1 {
      ScanOfExportUpTo(sheet, posts, n - 1);
      ExportStep(sheet, posts, n);
      ReimportedPrefixGrows(ScanUpTo(sheet.rows, n - 1).candidates, ScanUpTo(sheet.rows, n).candidates, posts, n - 2);
    }
  }

  /** A list holding the reimported first m posts, extended by the reimported
      post m, holds the reimported first m + 1 posts. */
  lemma ReimportedPrefixGrows(prev: seq<PostDto>, cur: seq<PostDto>, posts: seq<PostDto>, m: nat)
    requires m < |posts| && posts[m].id.Some?
    requires |prev| == m
    requires forall k :: 0 <= k < m ==> posts[k].id.Some? && prev[k] == Reimported(posts[k])
    requires cur == prev + [Reimported(posts[m])]
    ensures |cur| == m + 1
    ensures forall k :: 0 <= k < m + 1 ==> posts[k].id.Some? && cur[k] == Reimported(posts[k])
  {
  }

  /** Visiting exported row n - 1 appends the reimported post n - 2 and no warning. */
  lemma ExportStep(sheet: Sheet, posts: seq<PostDto>, n: nat)
    requires IsExportOf(sheet, posts)
    requires 2 <= n <= |posts| + 1
    ensures ScanUpTo(sheet.rows, n).candidates == ScanUpTo(sheet.rows, n - 1).candidates + [Reimported(posts[n - 2])]
    ensures ScanUpTo(sheet.rows, n).warnings == ScanUpTo(sheet.rows, n - 1).warnings
  {
    var post := posts[n - 2];
    var row := Some(PostRow(post));
    assert sheet.rows[(n - 2) + 1] == row;
    assert GetRow(sheet.rows, n - 1) == row;
    ExportedRowIsCandidate(post);
    assert Accept(row) == [Reimported(post)];
    var prev := ScanUpTo(sheet.rows, n - 1);
    assert ScanUpTo(sheet.rows, n) == Visit(prev, n - 1, row);
    VisitShape(prev, n - 1, row);
  }

  /** Re-importing an export does not give the posts back: every row is accepted
      and no warning is raised, but candidate k has the decimal id of post k as
      its title and the trimmed title of post k as its description; the old
      descriptions are not read. */
  lemma ReimportOfExport(sheet: Sheet, posts: seq<PostDto>)
    requires IsExportOf(sheet, posts)
    ensures ScanSheet(sheet).warnings == []
    ensures |ScanSheet(sheet).candidates| == |posts|
    ensures forall k :: 0 <= k < |posts| ==>
      ScanSheet(sheet).candidates[k] == PostDto(None, LongToString(posts[k].id.value), Trim(posts[k].title))
  {
    ScanOfExportUpTo(sheet, posts, |posts| + 1);
  }

  /** Posts with distinct ids, such as those of `getAllPosts`, come back with
      distinct titles, because the decimal texts of distinct ids differ. */
  lemma ReimportedTitlesDistinct(sheet: Sheet, posts: seq<PostDto>)
    requires IsExportOf(sheet, posts)
    requires forall j, k :: 0 <= j < k < |posts| ==> posts[j].id != posts[k].id
    ensures forall j, k :: 0 <= j < k < |ScanSheet(sheet).candidates| ==>
      ScanSheet(sheet).candidates[j].title != ScanSheet(sheet).candidates[k].title
  {
    ReimportOfExport(sheet, posts);
    forall j, k | 0 <= j < k < |posts|
      ensures LongToString(posts[j].id.value) != LongToString(posts[k].id.value)
    {
      LongToStringInjective(posts[j].id.value, posts[k].id.value);
    }
  }

  /** A concrete instance: the post (1, "Hello", "World") comes back as the
      candidate ("1", "Hello"), not as itself. */
  lemma ReimportIsNotIdentity(sheet: Sheet)
    requires IsExportOf(sheet, [PostDto(Some(1), "Hello", "World")])
    ensures ScanSheet(sheet).candidates == [PostDto(None, "1", "Hello")]
    ensures ScanSheet(sheet).candidates != [PostDto(None, "Hello", "World")]
  {
    var posts := [PostDto(Some(1), "Hello", "World")];
    ReimportOfExport(sheet, posts);
    assert LongToString(1) == "1";
    TrimKeepsTrimmed("Hello");
    assert ScanSheet(sheet).candidates[0] == PostDto(None, "1", "Hello");
  }
}
