/** Posts and the repository they live in. The JPA repository is replaced by an
    in-memory store: a map from id to the stored fields, the ids in insertion
    order (the order `findAll` returns), and the next id `save` hands out. */
module PostStore {
  import opened Wrappers

  /** The exchange shape (PostDTO): the id is absent on the create and import paths. */
  datatype PostDto = PostDto(id: Option<int>, title: string, description: string)

  /** What the store keeps for one id. */
  datatype PostFields = PostFields(title: string, description: string)

  /** The persisted shape (PostEntity). */
  datatype PostEntity = PostEntity(id: int, title: string, description: string)

  /** How the operations of the service fail; each stands for one Java exception. */
  datatype Error =
    | InvalidInput(message: string)  // IllegalArgumentException
    | NotFound(message: string)      // ResourceNotFoundException
    | ReadFailed                     // IOException while opening the workbook
    | PersistenceFailed              // an exception thrown by the repository's save

  /** The field copy ModelMapper performs from a DTO to an entity; the id is dropped. */
  function FieldsOf(post: PostDto): PostFields {
    PostFields(post.title, post.description)
  }

  /** The field copy ModelMapper performs from an entity back to a DTO. */
  function ToDto(entity: PostEntity): PostDto {
    PostDto(Some(entity.id), entity.title, entity.description)
  }

  function FieldsOfAll(posts: seq<PostDto>): (fs: seq<PostFields>)
    ensures |fs| == |posts|
    ensures forall k :: 0 <= k < |posts| ==> fs[k] == FieldsOf(posts[k])
  {
    seq(|posts|, k requires 0 <= k < |posts| => FieldsOf(posts[k]))
  }

  /** Mapping a concatenation maps each part: saving `a` then `b` stores the
      fields of `a + b`. */
  lemma FieldsOfAllAppend(a: seq<PostDto>, b: seq<PostDto>)
    ensures FieldsOfAll(a + b) == FieldsOfAll(a) + FieldsOfAll(b)
  {
    var whole, parts := FieldsOfAll(a + b), FieldsOfAll(a) + FieldsOfAll(b);
    assert |whole| == |parts|;
    forall k | 0 <= k < |whole|
      ensures whole[k] == parts[k]
    {
      if k < |a| {
        assert (a + b)[k] == a[k];
      } else {
        assert (a + b)[k] == b[k - |a|];
      }
    }
  }

  /** The store grew from (`oldRecords`, `oldOrder`) to (`records`, `order`) by
      `added`, appended in order under ids it did not hold before, and kept
      everything it held. */
  ghost predicate Appended(oldRecords: map<int, PostFields>, oldOrder: seq<int>,
                           records: map<int, PostFields>, order: seq<int>,
                           added: seq<PostFields>)
  {
    && |order| == |oldOrder| + |added|
    && order[..|oldOrder|] == oldOrder
    && oldRecords.Keys <= records.Keys
    && (forall id :: id in oldRecords ==> records[id] == oldRecords[id])
    && (forall k :: |oldOrder| <= k < |order| ==>
          order[k] !in oldRecords &&
          order[k] in records &&
          records[order[k]] == added[k - |oldOrder|])
  }

  lemma AppendedNothing(records: map<int, PostFields>, order: seq<int>)
    ensures Appended(records, order, records, order, [])
  {
  }

  /** Two appends in a row are one append of both lists. */
  lemma AppendedTrans(r0: map<int, PostFields>, o0: seq<int>,
                      r1: map<int, PostFields>, o1: seq<int>,
                      r2: map<int, PostFields>, o2: seq<int>,
                      a1: seq<PostFields>, a2: seq<PostFields>)
    requires Appended(r0, o0, r1, o1, a1)
    requires Appended(r1, o1, r2, o2, a2)
    requires forall k :: 0 <= k < |o1| ==> o1[k] in r1
    ensures Appended(r0, o0, r2, o2, a1 + a2)
  {
    var a := a1 + a2;
    assert o2[..|o0|] == o1[..|o0|];
    forall k | |o0| <= k < |o2|
      ensures o2[k] !in r0 && o2[k] in r2 && r2[o2[k]] == a[k - |o0|]
    {
      if k < |o1| {
        assert o2[k] == o1[k];
      } else {
        assert o2[k] !in r1;
      }
    }
  }

  /** The entities stored under `ids`, in that order. */
  function EntitiesOf(records: map<int, PostFields>, ids: seq<int>): (all: seq<PostEntity>)
    requires forall k :: 0 <= k < |ids| ==> ids[k] in records
    ensures |all| == |ids|
    ensures forall k :: 0 <= k < |ids| ==>
      all[k].id == ids[k] && PostFields(all[k].title, all[k].description) == records[ids[k]]
  {
    seq(|ids|, k requires 0 <= k < |ids| => PostEntity(ids[k], records[ids[k]].title, records[ids[k]].description))
  }

  class PostRepository {
    var records: map<int, PostFields>
    var order: seq<int>
    var nextId: int

    /** Ids are positive, listed once each in increasing (insertion) order, and
        all below the next id to hand out. */
    ghost predicate Valid()
      reads this
    {
      && 1 <= nextId
      && (forall j, k :: 0 <= j < k < |order| ==> order[j] < order[k])
      && (forall k :: 0 <= k < |order| ==> 1 <= order[k] < nextId && order[k] in records)
      && (forall id :: id in records ==> id in order)
    }

    constructor ()
      ensures Valid()
      ensures records == map[] && order == []
    {
      records := map[];
      order := [];
      nextId := 1;
    }

    /** `save` of a new entity: it is stored under a fresh id and returned with
        it. `fault` stands for the persistence layer throwing instead, in which
        case nothing is stored. */
    method Save(fields: PostFields, fault: bool) returns (r: Result<PostEntity, Error>)
      requires Valid()
      modifies this
      ensures Valid()
      ensures fault ==> r == Failure(PersistenceFailed) && unchanged(this)
      ensures !fault ==>
        && r.Success?
        && r.value.id !in old(records)
        && r.value.title == fields.title && r.value.description == fields.description
        && records == old(records)[r.value.id := fields]
        && order == old(order) + [r.value.id]
    {
      if fault {
        return Failure(PersistenceFailed);
      }
      var id := nextId;
      records := records[id := fields];
      order := order + [id];
      nextId := nextId + 1;
      r := Success(PostEntity(id, fields.title, fields.description));
    }

    /** `findById`. */
    function FindById(id: int): Option<PostEntity>
      reads this
    {
      if id in records then Some(PostEntity(id, records[id].title, records[id].description)) else None
    }

    /** `findAll`: every stored post once, in insertion order. */
    function FindAll(): (all: seq<PostEntity>)
      reads this
      requires Valid()
      ensures |all| == |order|
      ensures forall k :: 0 <= k < |all| ==>
        all[k].id == order[k] && order[k] in records &&
        PostFields(all[k].title, all[k].description) == records[order[k]]
      ensures forall id :: id in records ==> exists k :: 0 <= k < |all| && all[k].id == id
      ensures forall j, k :: 0 <= j < k < |all| ==> all[j].id < all[k].id
    {
      EntitiesOf(records, order)
    }

    /** `findById` and `findAll` agree: an id is found exactly when `findAll`
        lists it, and the post found is the one listed. */
    lemma FindByIdMatchesFindAll(id: int)
      requires Valid()
      ensures FindById(id).Some? <==> exists k :: 0 <= k < |FindAll()| && FindAll()[k].id == id
      ensures forall k :: 0 <= k < |FindAll()| && FindAll()[k].id == id ==> FindById(id) == Some(FindAll()[k])
    {
      var all := FindAll();
      if id in records {
        var k :| 0 <= k < |all| && all[k].id == id;
      }
    }
  }
}
