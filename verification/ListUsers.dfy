/**
 ListUsers over the in-memory repository, and a client that follows its page tokens.
 */
module ListUsers {
  import opened Base
  import opened Paging
  import Memory
  import opened Tokens
  import opened Rpc

  const DEFAULT_PAGE_SIZE := 50
  const MAX_PAGE_SIZE := 1000

  datatype ListReply = Listed(users: seq<User>, nextToken: Str) | Rejected(code: Code)

  function PageSize(requested: int): (size: int)
    ensures 1 <= size <= MAX_PAGE_SIZE
    ensures 1 <= requested <= MAX_PAGE_SIZE ==> size == requested
    ensures requested <= 0 ==> size == 50
    ensures requested > MAX_PAGE_SIZE ==> size == 1000
  {
    if requested <= 0 then DEFAULT_PAGE_SIZE else if requested > MAX_PAGE_SIZE then MAX_PAGE_SIZE else requested
  }

  ghost function List(mem: Memory.State, ctx: Context, requested: int, token: Str): ListReply {
    if ctx.Error().Some? then Rejected(MapStorageError(ctx.Error().value))
    else
      match DecodePageToken(token)
      case None => Rejected(Code.InvalidArgument)
      case Some(after) => Respond(Memory.DoList(mem, ctx, PageSize(requested), after))
  }

  function Respond(r: Memory.Reply): ListReply {
    match r
    case Failed(e) => Rejected(MapStorageError(e))
    case Page(users, next) => Listed(users, EncodePageToken(next))
    case _ => Rejected(Code.Internal)
  }

  /** The pages a client receives when it asks `list` with `token` and follows the next tokens
      until one is empty; `calls` is how often it may ask. */
  ghost function Follow(list: Str -> ListReply, token: Str, calls: nat): seq<seq<User>>
    decreases calls
  {
    if calls == 0 then []
    else
      match list(token)
      case Rejected(_) => []
      case Listed(users, next) => [users] + if next == [] then [] else Follow(list, next, calls - 1)
  }

  /** Within that many calls, an answer without a token is reached. */
  ghost predicate Finishes(list: Str -> ListReply, token: Str, calls: nat)
    decreases calls
  {
    calls > 0 &&
    var r := list(token);
    r.Listed? && (r.nextToken == [] || Finishes(list, r.nextToken, calls - 1))
  }

  function Flatten(pages: seq<seq<User>>): seq<User> {
    if pages == [] then [] else pages[0] + Flatten(pages[1..])
  }

  /** max(1, ceil(n / size)) */
  function PageCount(n: nat, size: int): (r: nat)
    requires size > 0
    ensures r >= 1
    ensures n == 0 ==> r == 1
    ensures n > 0 ==> (r - 1) * size < n <= r * size
  {
    if n <= size then 1 else 1 + PageCount(n - size, size)
  }

  /** `list` answers every token the service writes with the page after its cursor. */
  ghost predicate Pages(list: Str -> ListReply, store: Store, size: int)
    requires size > 0
  {
    forall after {:trigger EncodePageToken(after)} ::
      list(EncodePageToken(after)) ==
      Listed(Memory.UsersOf(store, PageIds(store, size, after)), EncodePageToken(NextCursor(store, size, after)))
  }

  /** Asked with `token`, `list` hands out the users of `ids`, `size` at a time. */
  ghost predicate HandsOut(list: Str -> ListReply, token: Str, store: Store, ids: seq<Str>, size: int)
    requires size > 0
    decreases |ids|
  {
    if |ids| <= size then
      list(token) == Listed(Memory.UsersOf(store, ids), [])
    else
      var r := list(token);
      && r.Listed? && r.users == Memory.UsersOf(store, ids[..size]) && r.nextToken != []
      && HandsOut(list, r.nextToken, store, ids[size..], size)
  }

  lemma {:induction false} PagesHandOut(list: Str -> ListReply, store: Store, size: int, after: Str)
    requires size > 0 && Pages(list, store, size)
    ensures HandsOut(list, EncodePageToken(after), store, IdsAfter(store, after), size)
    decreases |IdsAfter(store, after)|
  {
    var next := NextCursor(store, size, after);
    TokenRoundTrip(next);
    if |IdsAfter(store, after)| > size {
      CursorSplitsListing(store, size, after);
      PagesHandOut(list, store, size, next);
    }
  }

  /** The walk makes max(1, ceil(n/size)) calls for the n ids, finishes, and concatenates to their users. */
  lemma {:induction false} FollowHandsOut(list: Str -> ListReply, token: Str, store: Store, ids: seq<Str>, size: int)
    requires size > 0 && HandsOut(list, token, store, ids, size)
    ensures var calls := PageCount(|ids|, size);
            && Finishes(list, token, calls)
            && |Follow(list, token, calls)| == calls
            && Flatten(Follow(list, token, calls)) == Memory.UsersOf(store, ids)
    decreases |ids|
  {
    if |ids| <= size {
      FollowLast(list, token, Memory.UsersOf(store, ids));
    } else {
      var next := list(token).nextToken;
      FollowHandsOut(list, next, store, ids[size..], size);
      FollowMore(list, token, Memory.UsersOf(store, ids[..size]), next, PageCount(|ids| - size, size));
      assert ids == ids[..size] + ids[size..];
      Memory.UsersOfConcat(store, ids[..size], ids[size..]);
    }
  }

  lemma FollowLast(list: Str -> ListReply, token: Str, page: seq<User>)
    requires list(token) == Listed(page, [])
    ensures Follow(list, token, 1) == [page] && Finishes(list, token, 1) && Flatten([page]) == page
  {
    assert Flatten([page]) == page + Flatten([]);
  }

  lemma FollowMore(list: Str -> ListReply, token: Str, page: seq<User>, next: Str, calls: nat)
    requires list(token) == Listed(page, next) && next != []
    ensures Finishes(list, token, calls + 1) <==> Finishes(list, next, calls)
    ensures |Follow(list, token, calls + 1)| == 1 + |Follow(list, next, calls)|
    ensures Flatten(Follow(list, token, calls + 1)) == page + Flatten(Follow(list, next, calls))
  {
    var rest := Follow(list, next, calls);
    assert Follow(list, token, calls + 1) == [page] + rest;
    assert ([page] + rest)[1..] == rest;
  }

  lemma ListDecodes(mem: Memory.State, requested: int, after: Str)
    ensures List(mem, Live, requested, EncodePageToken(after)) ==
            Respond(Memory.DoList(mem, Live, PageSize(requested), after))
  {
    TokenRoundTrip(after);
  }

  lemma ListOpen(mem: Memory.State, requested: int, after: Str)
    requires !mem.closed
    ensures Respond(Memory.DoList(mem, Live, PageSize(requested), after)) ==
            Listed(Memory.UsersOf(mem.users, PageIds(mem.users, PageSize(requested), after)),
                   EncodePageToken(NextCursor(mem.users, PageSize(requested), after)))
  {
  }

  lemma ListPages(mem: Memory.State, requested: int)
    requires !mem.closed
    ensures Pages(token => List(mem, Live, requested, token), mem.users, PageSize(requested))
  {
    var list := token => List(mem, Live, requested, token);
    forall after {:trigger EncodePageToken(after)}
      ensures list(EncodePageToken(after)) ==
              Listed(Memory.UsersOf(mem.users, PageIds(mem.users, PageSize(requested), after)),
                     EncodePageToken(NextCursor(mem.users, PageSize(requested), after)))
    {
      ListDecodes(mem, requested, after);
      ListOpen(mem, requested, after);
    }
  }

  /** ListUsers answers with a page if and only if the context is live, the token can be read and the repository
      is open; a bad token is InvalidArgument, and a closed repository Unavailable. */
  lemma ListAnswers(mem: Memory.State, ctx: Context, requested: int, token: Str)
    ensures var r := List(mem, ctx, requested, token);
            && (r.Listed? <==> ctx == Live && DecodePageToken(token).Some? && !mem.closed)
            && (r == Rejected(Code.InvalidArgument) <==>
                ctx == NilContext || (ctx == Live && DecodePageToken(token) == None))
            && (r == Rejected(Code.Unavailable) <==> ctx == Live && DecodePageToken(token).Some? && mem.closed)
            && (r == Rejected(Code.Canceled) <==> ctx == Cancelled)
            && (r == Rejected(Code.DeadlineExceeded) <==> ctx == Expired)
  {
    var after := DecodePageToken(token);
    if ctx == Live && after.Some? && !mem.closed {
      ListOpen(mem, requested, after.value);
    }
  }

  lemma WholeListing(store: Store)
    requires [] !in store
    ensures IdsAfter(store, []) == Sorted(store.Keys) && |IdsAfter(store, [])| == |store|
  {
    assert (set x | x in store && Less([], x)) == store.Keys;
  }

  /** `users` are the users of `ids`, which are the stored ids in ascending order. */
  ghost predicate Lists(users: seq<User>, ids: seq<Str>, store: Store) {
    && Ascending(ids) && Elements(ids) == store.Keys
    && |users| == |ids| == |store|
    && forall i :: 0 <= i < |ids| ==> ids[i] in store && users[i] == store[ids[i]]
  }

  lemma SortedLists(store: Store)
    ensures Lists(Memory.UsersOf(store, Sorted(store.Keys)), Sorted(store.Keys), store)
  {
    var ids := Sorted(store.Keys);
    forall i | 0 <= i < |ids| ensures ids[i] in store {
      assert ids[i] in Elements(ids);
    }
    Memory.UsersOfIsPointwise(store, ids);
  }

  /** On an unchanging store in which no id is empty, following the tokens from the empty one
      takes max(1, ceil(n/size)) calls and yields all n users in ascending order of id. */
  lemma FollowListsEverything(mem: Memory.State, requested: int)
    requires !mem.closed && [] !in mem.users
    ensures var list := token => List(mem, Live, requested, token);
            var calls := PageCount(|mem.users|, PageSize(requested));
            && Finishes(list, [], calls)
            && |Follow(list, [], calls)| == calls
            && exists ids :: Lists(Flatten(Follow(list, [], calls)), ids, mem.users)
  {
    var list := token => List(mem, Live, requested, token);
    ListPages(mem, requested);
    PagesHandOut(list, mem.users, PageSize(requested), []);
    FollowHandsOut(list, [], mem.users, IdsAfter(mem.users, []), PageSize(requested));
    WholeListing(mem.users);
    SortedLists(mem.users);
  }

  /** A user stored under the empty id would never be listed, by any walk. */
  lemma EmptyIdIsNeverListed(store: Store, limit: int, after: Str)
    requires limit > 0
    ensures [] !in PageIds(store, limit, after)
  {
    PageAscends(store, limit, after);
  }
}
