/** PostServiceImpl: the CRUD operations over the repository, the export table
    builder and the spreadsheet upload. */
module PostService {
  import opened Wrappers
  import opened JavaText
  import opened Spreadsheet
  import opened PostStore
  import opened ExcelImport
  import opened ExcelExport

  /** How many candidates are saved when the save of candidate `failAt`, if
      any, throws: all of them, or those before the failing one. */
  function SavedCount(n: nat, failAt: Option<nat>): (saved: nat)
    ensures saved <= n
    ensures saved < n <==> failAt.Some? && failAt.value < n
    ensures saved < n ==> saved == failAt.value
  {
    if failAt.Some? && failAt.value < n then failAt.value else n
  }

  function ToDtos(entities: seq<PostEntity>): (posts: seq<PostDto>)
    ensures |posts| == |entities|
    ensures forall k :: 0 <= k < |entities| ==> posts[k] == ToDto(entities[k])
  {
    seq(|entities|, k requires 0 <= k < |entities| => ToDto(entities[k]))
  }

  class PostServiceImpl {
    const postRepository: PostRepository

    constructor (postRepository: PostRepository)
      ensures this.postRepository == postRepository
    {
      this.postRepository := postRepository;
    }

    /** `getAllPosts`: every stored post once, in the repository's order, with
        its id; the ids are increasing and so distinct. */
    function GetAllPosts(): (posts: seq<PostDto>)
      reads postRepository
      requires postRepository.Valid()
      ensures |posts| == |postRepository.order|
      ensures forall k :: 0 <= k < |posts| ==>
        && posts[k].id == Some(postRepository.order[k])
        && postRepository.order[k] in postRepository.records
        && FieldsOf(posts[k]) == postRepository.records[postRepository.order[k]]
      ensures forall j, k :: 0 <= j < k < |posts| ==> posts[j].id.value < posts[k].id.value
    {
      ToDtos(postRepository.FindAll())
    }

    /** `getPostById`: the stored post for an existing id, NotFound otherwise. */
    function GetPostById(postId: int): (r: Result<PostDto, Error>)
      reads postRepository
      ensures r.Success? <==> postId in postRepository.records
      ensures r.Success? ==> r.value.id == Some(postId) && FieldsOf(r.value) == postRepository.records[postId]
      ensures r.Failure? ==> r.error == NotFound("Post not found with id " + LongToString(postId))
    {
      match postRepository.FindById(postId)
      case None => Failure(NotFound("Post not found with id " + LongToString(postId)))
      case Some(entity) => Success(ToDto(entity))
    }

    /** `getPostById` and `getAllPosts` agree: an id is found exactly when
        `getAllPosts` lists a post with it, and the post found is that one. */
    lemma GetPostByIdMatchesGetAllPosts(postId: int)
      requires postRepository.Valid()
      ensures GetPostById(postId).Success? <==>
        exists k :: 0 <= k < |GetAllPosts()| && GetAllPosts()[k].id == Some(postId)
      ensures forall k :: 0 <= k < |GetAllPosts()| && GetAllPosts()[k].id == Some(postId) ==>
        GetPostById(postId) == Success(GetAllPosts()[k])
    {
      postRepository.FindByIdMatchesFindAll(postId);
      var all, posts := postRepository.FindAll(), GetAllPosts();
      assert forall k :: 0 <= k < |all| ==> posts[k] == ToDto(all[k]);
      if postId in postRepository.records {
        var k :| 0 <= k < |all| && all[k].id == postId;
        assert posts[k].id == Some(postId);
      }
    }

    /** `createNewPost`: stores the title and description of `inputPost` under a
        fresh id (any id it carries is ignored) and returns the saved post.
        `fault` stands for the repository's save throwing. */
    method CreateNewPost(inputPost: PostDto, fault: bool) returns (r: Result<PostDto, Error>)
      requires postRepository.Valid()
      modifies postRepository
      ensures postRepository.Valid()
      ensures fault ==> r == Failure(PersistenceFailed) && unchanged(postRepository)
      ensures !fault ==>
        && r.Success? && r.value.id.Some?
        && r.value.id.value !in old(postRepository.records)
        && FieldsOf(r.value) == FieldsOf(inputPost)
        && Appended(old(postRepository.records), old(postRepository.order),
                    postRepository.records, postRepository.order, [FieldsOf(inputPost)])
        && postRepository.order[|old(postRepository.order)|] == r.value.id.value
    {
      var saved := postRepository.Save(FieldsOf(inputPost), fault);
      if saved.Failure? {
        return Failure(saved.error);
      }
      r := Success(ToDto(saved.value));
    }

    /** `generatePostsExcelFile`, as the table it builds: the header row, then
        one row per post of `getAllPosts`, in that order. Nothing is stored. */
    method GeneratePostsExcelFile() returns (sheet: Sheet)
      requires postRepository.Valid()
      ensures IsExportOf(sheet, GetAllPosts())
    {
      var posts := GetAllPosts();
      var rows: seq<Option<Row>> := [Some(HeaderRow())];
      var rowNum := 1;
      for i := 0 to |posts|
        invariant rowNum == i + 1 == |rows|
        invariant rows[0] == Some(HeaderRow())
        invariant forall k :: 0 <= k < i ==> posts[k].id.Some? && rows[k + 1] == Some(PostRow(posts[k]))
      {
        rows := rows + [Some(PostRow(posts[i]))];
        rowNum := rowNum + 1;
      }
      sheet := Sheet(SHEET_NAME, rows);
    }

    /** The persistence loop of `uploadPostsFromExcel`: `createNewPost` for each
        candidate in order, stopping at the first save that throws (the one at
        index `failAt`, if any), whose error is returned. */
    method SaveAll(postsToSave: seq<PostDto>, failAt: Option<nat>) returns (r: Outcome<Error>)
      requires postRepository.Valid()
      modifies postRepository
      ensures postRepository.Valid()
      ensures var saved := SavedCount(|postsToSave|, failAt);
        && Appended(old(postRepository.records), old(postRepository.order),
                    postRepository.records, postRepository.order,
                    FieldsOfAll(postsToSave[..saved]))
        && r == (if saved < |postsToSave| then Fail(PersistenceFailed) else Pass)
    {
      var k := 0;
      AppendedNothing(postRepository.records, postRepository.order);
      while k < |postsToSave|
        invariant 0 <= k <= |postsToSave|
        invariant postRepository.Valid()
        invariant failAt.Some? ==> k <= failAt.value
        invariant Appended(old(postRepository.records), old(postRepository.order),
                           postRepository.records, postRepository.order,
                           FieldsOfAll(postsToSave[..k]))
      {
        ghost var records, order := postRepository.records, postRepository.order;
        var created := CreateNewPost(postsToSave[k], failAt == Some(k));
        if created.Failure? {
          return Fail(created.error);
        }
        AppendedTrans(old(postRepository.records), old(postRepository.order), records, order,
                      postRepository.records, postRepository.order,
                      FieldsOfAll(postsToSave[..k]), [FieldsOf(postsToSave[k])]);
        assert postsToSave[..k + 1] == postsToSave[..k] + [postsToSave[k]];
        FieldsOfAllAppend(postsToSave[..k], [postsToSave[k]]);
        k := k + 1;
      }
      assert postsToSave[..k] == postsToSave;
      r := Pass;
    }

    /** `uploadPostsFromExcel`. The empty-file gate, then the extension gate, then
        the workbook is opened (an IllegalArgumentException from that step is
        re-thrown as it is); each failure leaves the repository as it was.
        The row scan fills the candidates and the warnings; with no candidate
        the upload fails and nothing is stored. Otherwise the candidates are
        saved one by one, in order, through `createNewPost`. `failAt` is the
        index of the first candidate whose save throws, if any: the earlier
        ones stay stored, the later ones are not attempted and the error is
        returned. Without a failure the count is the number of candidates. */
    method UploadPostsFromExcel(file: UploadedFile, failAt: Option<nat>)
      returns (r: Result<nat, Error>, warnings: seq<nat>)
      requires postRepository.Valid()
      modifies postRepository
      ensures postRepository.Valid()
      ensures file.size == 0 ==>
        r == Failure(InvalidInput(FILE_EMPTY)) && warnings == [] && unchanged(postRepository)
      ensures file.size != 0 && !IsExcelFileName(file.originalFilename) ==>
        r == Failure(InvalidInput(NOT_EXCEL)) && warnings == [] && unchanged(postRepository)
      ensures file.size != 0 && IsExcelFileName(file.originalFilename) && file.content.Rejected? ==>
        r == Failure(InvalidInput(file.content.message)) && warnings == [] && unchanged(postRepository)
      ensures file.size != 0 && IsExcelFileName(file.originalFilename) && file.content.Unreadable? ==>
        r == Failure(ReadFailed) && warnings == [] && unchanged(postRepository)
      ensures file.size != 0 && IsExcelFileName(file.originalFilename) && file.content.Readable? ==>
        var scan := ScanSheet(file.content.first);
        var saved := SavedCount(|scan.candidates|, failAt);
        && warnings == scan.warnings
        && (scan.candidates == [] ==>
              r == Failure(InvalidInput(NO_VALID_POSTS)) && unchanged(postRepository))
        && (scan.candidates != [] ==>
              && Appended(old(postRepository.records), old(postRepository.order),
                          postRepository.records, postRepository.order,
                          FieldsOfAll(scan.candidates[..saved]))
              && r == (if saved < |scan.candidates| then Failure(PersistenceFailed)
                       else Success(|scan.candidates|)))
    {
      if file.size == 0 {
        return Failure(InvalidInput(FILE_EMPTY)), [];
      }
      var fileName := file.originalFilename;
      if fileName.None? || (!EndsWith(fileName.value, ".xlsx") && !EndsWith(fileName.value, ".xls")) {
        return Failure(InvalidInput(NOT_EXCEL)), [];
      }
      if file.content.Rejected? {
        return Failure(InvalidInput(file.content.message)), [];
      }
      if file.content.Unreadable? {
        return Failure(ReadFailed), [];
      }
      var postsToSave;
      postsToSave, warnings := CollectPosts(file.content.first);
      if postsToSave == [] {
        return Failure(InvalidInput(NO_VALID_POSTS)), warnings;
      }
      var saved := SaveAll(postsToSave, failAt);
      if saved.Fail? {
        return Failure(saved.error), warnings;
      }
      r := Success(|postsToSave|);
    }
  }
}
