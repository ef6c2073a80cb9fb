/** The database handle the procedures share: the `videos` and `users` tables, held as row
    sequences, and the statements run on them. */
module Db {
  import opened Wrappers
  import opened Schema
  import opened Table

  /** `select * from users where clerk_id = c`, in table order. */
  function UsersWithClerkId(users: seq<User>, c: string): (r: seq<User>)
    ensures forall u :: u in r <==> u in users && u.clerkId == c
  {
    if users == [] then []
    else if users[0].clerkId == c then [users[0]] + UsersWithClerkId(users[1..], c)
    else UsersWithClerkId(users[1..], c)
  }

  /** `clerk_id` being unique, a lookup by it finds at most one user. */
  lemma {:induction false} ClerkIdSelectsAtMostOne(users: seq<User>, c: string)
    requires UniqueClerkIds(users)
    ensures |UsersWithClerkId(users, c)| <= 1
  {
    if users != [] {
      assert UniqueClerkIds(users[1..]) by {
        forall i, j | 0 <= i < j < |users[1..]|
          ensures users[1..][i].clerkId != users[1..][j].clerkId
        {
          assert users[1..][i] == users[i + 1] && users[1..][j] == users[j + 1];
        }
      }
      ClerkIdSelectsAtMostOne(users[1..], c);
      if users[0].clerkId == c {
        forall u | u in users[1..] ensures u.clerkId != c {
          var k :| 0 <= k < |users[1..]| && users[1..][k] == u;
          assert users[k + 1] == u;
        }
        NoUserWithClerkId(users[1..], c);
      }
    }
  }

  lemma {:induction false} NoUserWithClerkId(users: seq<User>, c: string)
    requires forall u :: u in users ==> u.clerkId != c
    ensures UsersWithClerkId(users, c) == []
  {
    if users != [] {
      assert users[0] in users;
      NoUserWithClerkId(users[1..], c);
    }
  }

  class Database {
    var videos: seq<Video>
    var users: seq<User>

    /** The constraints the schema declares: unique video ids, unique Clerk ids. */
    ghost predicate Valid()
      reads this
    {
      UniqueIds(videos) && UniqueClerkIds(users)
    }

    constructor (initialUsers: seq<User>)
      requires UniqueClerkIds(initialUsers)
      ensures Valid() && videos == [] && users == initialUsers
    {
      videos := [];
      users := initialUsers;
    }

    /** `db.select().from(videos).where(w)` */
    method SelectVideos(w: Where) returns (rs: seq<Video>)
      requires Valid()
      ensures rs == MatchingRows(videos, w)
      ensures forall v :: v in rs <==> v in videos && Matches(w, v)
    {
      rs := MatchingRows(videos, w);
    }

    /** `db.update(videos).set(a).where(w).returning()` */
    method UpdateVideos(w: Where, a: Assignment) returns (updated: seq<Video>)
      requires Valid()
      modifies this
      ensures Valid() && users == old(users)
      ensures videos == UpdateRows(old(videos), w, a)
      ensures ChangedOnly(old(videos), videos, w, Touches(a))
      ensures updated == Returning(old(videos), w, a)
    {
      UpdateRowsFrame(videos, w, a);
      updated := Returning(videos, w, a);
      videos := UpdateRows(videos, w, a);
    }

    /** `db.delete(videos).where(w).returning()` */
    method DeleteVideos(w: Where) returns (deleted: seq<Video>)
      requires Valid()
      modifies this
      ensures Valid() && users == old(users)
      ensures videos == DeleteRows(old(videos), w)
      ensures deleted == MatchingRows(old(videos), w)
      ensures multiset(videos) + multiset(deleted) == multiset(old(videos))
    {
      DeleteRowsUniqueIds(videos, w);
      DeleteRowsSplit(videos, w);
      deleted := MatchingRows(videos, w);
      videos := DeleteRows(videos, w);
    }

    /** `db.insert(videos).values(v).returning()`: the primary key refuses a duplicate id. */
    method InsertVideo(v: Video) returns (ok: bool)
      requires Valid()
      modifies this
      ensures Valid() && users == old(users)
      ensures ok <==> forall r :: r in old(videos) ==> r.id != v.id
      ensures videos == if ok then old(videos) + [v] else old(videos)
    {
      ok := forall r :: r in videos ==> r.id != v.id;
      if ok {
        videos := videos + [v];
      }
    }
  }
}
