/**
 * The community page: posts newest first, each with the replies filed under
 * it in the order the replies were fetched (oldest first); the `reply` form
 * handler that files a reply; and `join_community`, which gives each user at
 * most one, unique, community username.
 */
module Community {
  import opened Wrappers
  import opened Text

  datatype Post = Post(id: int, username: string, message: string)

  /** A stored reply. Post ids are integers: the reply form's text id is
      stored in an integer column. */
  datatype Reply = Reply(id: int, postId: int, parentReplyId: Option<string>,
                         username: string, message: string)

  /** A post with the replies attached to it for the page. */
  datatype EnrichedPost = EnrichedPost(post: Post, replies: seq<Reply>)

  /** The replies to post `pid`, in their order in `replies`. */
  function RepliesOf(replies: seq<Reply>, pid: int): seq<Reply> {
    if replies == [] then []
    else RepliesOf(replies[..|replies| - 1], pid)
         + (if replies[|replies| - 1].postId == pid then [replies[|replies| - 1]] else [])
  }

  /** The positions in `replies` of the replies to post `pid`, ascending. */
  function ReplyIndices(replies: seq<Reply>, pid: int): (idx: seq<nat>)
    ensures forall j :: 0 <= j < |idx| ==> idx[j] < |replies| && replies[idx[j]].postId == pid
    ensures forall j, j' :: 0 <= j < j' < |idx| ==> idx[j] < idx[j']
    ensures forall k :: 0 <= k < |replies| && replies[k].postId == pid ==> k in idx
  {
    if replies == [] then []
    else
      var n := |replies| - 1;
      var front := ReplyIndices(replies[..n], pid);
      front + (if replies[n].postId == pid then [n] else [])
  }

  /** `RepliesOf` lists exactly the replies to `pid`, each once, in input
      order: its j-th element is the reply at the j-th matching position. */
  lemma {:induction false} RepliesOfInOrder(replies: seq<Reply>, pid: int)
    ensures var r := RepliesOf(replies, pid);
      var idx := ReplyIndices(replies, pid);
      |r| == |idx| && forall j :: 0 <= j < |r| ==> r[j] == replies[idx[j]]
  {
    if replies != [] {
      var n := |replies| - 1;
      RepliesOfInOrder(replies[..n], pid);
      var r0 := RepliesOf(replies[..n], pid);
      var idx0 := ReplyIndices(replies[..n], pid);
      forall j | 0 <= j < |r0| ensures r0[j] == replies[idx0[j]] {
        assert replies[..n][idx0[j]] == replies[idx0[j]];
      }
    }
  }

  /** A reply is attached to post `pid` exactly when it is a reply to it. */
  lemma {:induction false} RepliesOfMembers(replies: seq<Reply>, pid: int, r: Reply)
    ensures r in RepliesOf(replies, pid) <==> r in replies && r.postId == pid
  {
    if replies != [] {
      var n := |replies| - 1;
      RepliesOfMembers(replies[..n], pid, r);
      assert replies == replies[..n] + [replies[n]];
    }
  }

  /** `post_reply_map.get(id, [])`: a post nobody replied to gets no replies. */
  lemma {:induction false} RepliesOfNone(replies: seq<Reply>, pid: int)
    requires forall k :: 0 <= k < |replies| ==> replies[k].postId != pid
    ensures RepliesOf(replies, pid) == []
  {
    if replies != [] {
      RepliesOfNone(replies[..|replies| - 1], pid);
    }
  }

  /** Some reply in `replies` is filed under post `pid`. */
  predicate HasReplyTo(replies: seq<Reply>, pid: int) {
    exists k :: 0 <= k < |replies| && replies[k].postId == pid
  }

  /** The first loop of `community`: `setdefault(post_id, []).append(reply)`. */
  method GroupReplies(replies: seq<Reply>) returns (groups: map<int, seq<Reply>>)
    ensures forall pid :: pid in groups <==> HasReplyTo(replies, pid)
    ensures forall pid :: pid in groups ==> groups[pid] == RepliesOf(replies, pid)
  {
    groups := map[];
    for i := 0 to |replies|
      invariant forall pid :: pid in groups <==> HasReplyTo(replies[..i], pid)
      invariant forall pid :: pid in groups ==> groups[pid] == RepliesOf(replies[..i], pid)
    {
      var reply := replies[i];
      var pid := reply.postId;
      var list := if pid in groups then groups[pid] else [];
      groups := groups[pid := list + [reply]];
      assert replies[..i + 1][..i] == replies[..i];
      forall p | !HasReplyTo(replies[..i], p) ensures RepliesOf(replies[..i], p) == [] {
        RepliesOfNone(replies[..i], p);
      }
      forall p | HasReplyTo(replies[..i + 1], p) && p != pid ensures HasReplyTo(replies[..i], p) {
        var k :| 0 <= k < i + 1 && replies[..i + 1][k].postId == p;
        assert replies[..i][k].postId == p;
      }
      assert replies[..i + 1][i].postId == pid;
    }
    assert replies[..|replies|] == replies;
  }

  /** The second loop of `community`: each post, in order, with
      `post_reply_map.get(post['id'], [])`. */
  method AttachReplies(posts: seq<Post>, groups: map<int, seq<Reply>>) returns (enriched: seq<EnrichedPost>)
    ensures |enriched| == |posts|
    ensures forall i :: 0 <= i < |posts| ==>
      enriched[i] == EnrichedPost(posts[i], if posts[i].id in groups then groups[posts[i].id] else [])
  {
    enriched := [];
    for i := 0 to |posts|
      invariant |enriched| == i
      invariant forall j :: 0 <= j < i ==>
        enriched[j] == EnrichedPost(posts[j], if posts[j].id in groups then groups[posts[j].id] else [])
    {
      var post := posts[i];
      var replies := if post.id in groups then groups[post.id] else [];
      enriched := enriched + [EnrichedPost(post, replies)];
    }
  }

  /** The page data of `community`: the posts keep their order and number,
      each gets exactly the replies filed under its id, in fetch order, and a
      reply to a post that is not on the page is shown nowhere. */
  method EnrichPosts(posts: seq<Post>, replies: seq<Reply>) returns (enriched: seq<EnrichedPost>)
    ensures |enriched| == |posts|
    ensures forall i :: 0 <= i < |posts| ==> enriched[i].post == posts[i]
    ensures forall i :: 0 <= i < |posts| ==> enriched[i].replies == RepliesOf(replies, posts[i].id)
    ensures forall i, r :: 0 <= i < |posts| && r in enriched[i].replies ==> r in replies && r.postId == posts[i].id
  {
    var groups := GroupReplies(replies);
    enriched := AttachReplies(posts, groups);
    forall i | 0 <= i < |posts| ensures enriched[i].replies == RepliesOf(replies, posts[i].id) {
      if posts[i].id !in groups {
        RepliesOfNone(replies, posts[i].id);
      }
    }
    forall i, r | 0 <= i < |posts| && r in enriched[i].replies ensures r in replies && r.postId == posts[i].id {
      RepliesOfMembers(replies, posts[i].id, r);
    }
  }

  /** `parent_reply_id`: a missing or empty form value becomes `None`. */
  function NormaliseParent(field: Option<string>): (r: Option<string>)
    ensures r.None? <==> field.None? || field.value == ""
    ensures r.Some? ==> r == field
  {
    match field
    case None => None
    case Some(v) => if v == "" then None else field
  }

  lemma NormaliseParentIdempotent(field: Option<string>)
    ensures NormaliseParent(NormaliseParent(field)) == NormaliseParent(field)
    ensures NormaliseParent(field) != Some("")
  {
  }

  /** The row the `reply` handler inserts. */
  datatype NewReply = NewReply(postId: string, parentReplyId: Option<string>,
                               username: string, message: string)

  datatype ReplyOutcome = ReplyToLogin | Inserted(row: NewReply)

  /** The `reply` handler: the username comes from the session when it is
      set and non-empty, else from the community users table; without
      either the user is sent to the login page. */
  function PostReply(loggedIn: bool, sessionUsername: Option<string>, storedUsername: Option<string>,
                     postId: string, message: string, parentField: Option<string>): (r: ReplyOutcome)
    ensures r.Inserted? <==> loggedIn && ((sessionUsername.Some? && sessionUsername.value != "") || storedUsername.Some?)
    ensures r.Inserted? ==> r.row.postId == postId && r.row.parentReplyId == NormaliseParent(parentField)
    ensures r.Inserted? ==> r.row.username == if sessionUsername.Some? && sessionUsername.value != "" then sessionUsername.value else storedUsername.value
    ensures r.Inserted? ==> r.row.message == Strip(message)
  {
    if !loggedIn then ReplyToLogin
    else
      var username :=
        if sessionUsername.Some? && sessionUsername.value != "" then Some(sessionUsername.value)
        else storedUsername;
      match username
      case None => ReplyToLogin
      case Some(u) => Inserted(NewReply(postId, NormaliseParent(parentField), u, Strip(message)))
  }

  /** The community users table: e-mail to username. */
  type Members = map<string, string>

  /** No two members share a username. */
  predicate UniqueNames(m: Members) {
    forall e1, e2 :: e1 in m && e2 in m && e1 != e2 ==> m[e1] != m[e2]
  }

  datatype JoinOutcome = JoinToLogin | AlreadyMember | ShowJoinForm | NameTaken | Joined(username: string)

  /** `join_community`: the outcome and the members table afterwards. */
  function JoinCommunity(m: Members, loggedIn: bool, email: string, isPost: bool, rawName: string): (r: (JoinOutcome, Members))
    ensures r.0.Joined? <==> loggedIn && email !in m && isPost && Strip(rawName) !in m.Values
    ensures r.0.Joined? ==> r.0.username == Strip(rawName) && r.1 == m[email := Strip(rawName)]
    ensures !r.0.Joined? ==> r.1 == m
  {
    if !loggedIn then (JoinToLogin, m)
    else if email in m then (AlreadyMember, m)
    else if !isPost then (ShowJoinForm, m)
    else
      var name := Strip(rawName);
      if name in m.Values then (NameTaken, m)
      else (Joined(name), m[email := name])
  }

  /** Joining keeps usernames unique and never changes an existing member's
      username. */
  lemma JoinKeepsNamesUnique(m: Members, loggedIn: bool, email: string, isPost: bool, rawName: string)
    requires UniqueNames(m)
    ensures var m' := JoinCommunity(m, loggedIn, email, isPost, rawName).1;
      UniqueNames(m') && forall e :: e in m ==> e in m' && m'[e] == m[e]
  {
    var (out, m') := JoinCommunity(m, loggedIn, email, isPost, rawName);
    if out.Joined? {
      forall e1, e2 | e1 in m' && e2 in m' && e1 != e2 ensures m'[e1] != m'[e2] {
        if e1 == email {
          assert m[e2] in m.Values;
        } else if e2 == email {
          assert m[e1] in m.Values;
        }
      }
    }
  }
}
