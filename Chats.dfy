/** The list of monitored chats (`config.chat_ids`) and the three operations
    that test, add and remove a chat. Ids are kept as their string form, as
    `str(chat_id)` produces it. */
module Chats {
  import opened Lists

  /** `s.remove(x)`: the first occurrence of `x` taken out. */
  function RemoveFirst(s: seq<string>, x: string): (r: seq<string>)
    requires x in s
    ensures |r| == |s| - 1
    ensures forall k :: 0 <= k < |r| ==> r[k] == if k < IndexOf(s, x) then s[k] else s[k + 1]
    ensures multiset(r) == multiset(s) - multiset{x}
  {
    var i := IndexOf(s, x);
    assert s == s[..i] + [x] + s[i + 1..];
    s[..i] + s[i + 1..]
  }

  /** Adding an id that was not there and removing it again gives back the
      list it started from. */
  lemma AddThenRemove(s: seq<string>, x: string)
    requires x !in s
    ensures RemoveFirst(s + [x], x) == s
  {
    var t := s + [x];
    assert t[|s|] == x;
    assert forall j :: 0 <= j < |s| ==> t[j] == s[j];
    assert t[..|s|] == s;
  }

  /** In a list without duplicates, a removed id is no longer monitored and
      the list stays without duplicates. */
  lemma RemoveFromDistinct(s: seq<string>, x: string)
    requires Distinct(s) && x in s
    ensures Distinct(RemoveFirst(s, x)) && x !in RemoveFirst(s, x)
  {
    var i := IndexOf(s, x);
    var r := RemoveFirst(s, x);
    forall k | 0 <= k < |r| ensures r[k] != x {
      if k < i {
        assert r[k] == s[k];
      } else {
        assert r[k] == s[k + 1];
      }
    }
  }

  class ChatList {
    /** `config.chat_ids`, each as its string form. */
    var chatIds: seq<string>

    constructor (ids: seq<string>)
      ensures chatIds == ids
    {
      chatIds := ids;
    }

    /** `is_bot_chat`. */
    function IsBotChat(id: string): (b: bool)
      reads this
      ensures b <==> exists i :: 0 <= i < |chatIds| && chatIds[i] == id
    {
      id in chatIds
    }

    /** `add_chat`: appends an id that is not yet monitored; reports whether
        it did. */
    method AddChat(id: string) returns (added: bool)
      modifies this
      ensures added <==> !old(IsBotChat(id))
      ensures chatIds == if added then old(chatIds) + [id] else old(chatIds)
      ensures IsBotChat(id)
      ensures Distinct(old(chatIds)) ==> Distinct(chatIds)
    {
      if id !in chatIds {
        chatIds := chatIds + [id];
        added := true;
      } else {
        added := false;
      }
    }

    /** `remove_chat`: removes the first occurrence of a monitored id;
        reports whether there was one. */
    method RemoveChat(id: string) returns (removed: bool)
      modifies this
      ensures removed <==> old(IsBotChat(id))
      ensures chatIds == if removed then RemoveFirst(old(chatIds), id) else old(chatIds)
      ensures Distinct(old(chatIds)) ==> Distinct(chatIds) && !IsBotChat(id)
    {
      if id in chatIds {
        RemoveFromDistinctIf(chatIds, id);
        chatIds := RemoveFirst(chatIds, id);
        removed := true;
      } else {
        removed := false;
      }
    }
  }

  lemma RemoveFromDistinctIf(s: seq<string>, x: string)
    requires x in s
    ensures Distinct(s) ==> Distinct(RemoveFirst(s, x)) && x !in RemoveFirst(s, x)
  {
    if Distinct(s) {
      RemoveFromDistinct(s, x);
    }
  }
}
