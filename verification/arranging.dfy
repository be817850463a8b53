/** Picking the new messages of a received batch and sorting them
    (src/chat/messagesmodel.cpp:511-528, src/chat/messagedata.cpp:278-290). */
module Arranging {
  import opened IdLists
  import opened Rows

  /** The received messages that belong to the chat, have an id and are not loaded yet. */
  function NewOnes(received: seq<Message>, chatId: int, known: set<int>): (r: seq<Message>)
  {
    if received == [] then []
    else
      var m := received[0];
      (if Wanted(m, chatId, known) then [m.Received()] else [])
      + NewOnes(received[1..], chatId, known)
  }

  /** A received message that is to be taken. */
  predicate Wanted(m: Message, chatId: int, known: set<int>)
  {
    m.id != 0 && m.chatId == chatId && m.id !in known
  }

  /** What is taken are exactly the wanted messages, unmarked. */
  lemma {:induction false} NewOnesMember(received: seq<Message>, chatId: int, known: set<int>, x: Message)
    ensures x in NewOnes(received, chatId, known)
            <==> exists m :: m in received && Wanted(m, chatId, known) && x == m.Received()
    ensures x in NewOnes(received, chatId, known) ==>
              x.id != 0 && x.chatId == chatId && x.id !in known && x.Unmarked() && x.id in Ids(received)
    ensures x in received && Wanted(x, chatId, known) ==> x.Received() in NewOnes(received, chatId, known)
  {
    if received == [] {
    } else {
      var head, tail := received[0], received[1..];
      assert received == [head] + tail;
      IdsConcat([head], tail);
      assert Ids([head]) == [head.id];
      NewOnesMember(tail, chatId, known, x);
      if x in NewOnes(received, chatId, known) && x !in NewOnes(tail, chatId, known) {
        assert head in received && Wanted(head, chatId, known) && x == head.Received();
      }
      if m :| m in received && Wanted(m, chatId, known) && x == m.Received() {
        assert m == head || m in tail;
      }
      if x in received && Wanted(x, chatId, known) && x !in tail {
        assert x == head;
      }
    }
  }

  lemma {:induction false} NewOnesDistinct(received: seq<Message>, chatId: int, known: set<int>)
    requires Distinct(Ids(received))
    ensures Distinct(Ids(NewOnes(received, chatId, known)))
  {
    if received == [] {
    } else {
      var m, tail := received[0], received[1..];
      forall k | 0 <= k < |tail| ensures Ids(tail)[k] == Ids(received)[k + 1] {}
      assert Ids(received)[0] == m.id;
      NewOnesDistinct(tail, chatId, known);
      var rest := NewOnes(tail, chatId, known);
      forall k | 0 <= k < |rest| ensures rest[k].id != m.id {
        assert rest[k] in rest;
        NewOnesMember(tail, chatId, known, rest[k]);
      }
      DistinctCons(m.Received(), rest);
    }
  }

  lemma {:induction false} DistinctCons(m: Message, rest: seq<Message>)
    requires Distinct(Ids(rest)) && forall k :: 0 <= k < |rest| ==> rest[k].id != m.id
    ensures Distinct(Ids([m] + rest))
  {
    IdsConcat([m], rest);
    assert Ids([m]) == [m.id];
  }

  lemma {:induction false} NewOnesSnoc(received: seq<Message>, m: Message, chatId: int, known: set<int>)
    ensures NewOnes(received + [m], chatId, known)
         == NewOnes(received, chatId, known) + NewOnes([m], chatId, known)
  {
    if received == [] {
      assert [] + [m] == [m];
    } else {
      assert (received + [m])[1..] == received[1..] + [m];
      NewOnesSnoc(received[1..], m, chatId, known);
    }
  }

  /** The comparison handed to the sort. "More than" is used strictly: no two ids of a batch are equal. */
  predicate Before(reverseOrder: bool, a: Message, b: Message)
  {
    if reverseOrder then LessThan(b, a) else LessThan(a, b)
  }

  function Place(reverseOrder: bool, sorted: seq<Message>, m: Message): (r: seq<Message>)
    ensures |r| == |sorted| + 1
  {
    if sorted == [] then [m]
    else if Before(reverseOrder, m, sorted[0]) then [m] + sorted
    else [sorted[0]] + Place(reverseOrder, sorted[1..], m)
  }

  function Arranged(reverseOrder: bool, rows: seq<Message>): (r: seq<Message>)
    ensures |r| == |rows|
  {
    if rows == [] then [] else Place(reverseOrder, Arranged(reverseOrder, rows[1..]), rows[0])
  }

  ghost predicate InOrder(reverseOrder: bool, rows: seq<Message>)
  {
    forall i, j :: 0 <= i < j < |rows| ==> Before(reverseOrder, rows[i], rows[j])
  }

  lemma {:induction false} PlaceMembers(reverseOrder: bool, sorted: seq<Message>, m: Message)
    ensures forall x :: x in Place(reverseOrder, sorted, m) <==> x == m || x in sorted
  {
    if sorted == [] {
    } else {
      PlaceMembers(reverseOrder, sorted[1..], m);
      assert sorted == [sorted[0]] + sorted[1..];
    }
  }

  lemma {:induction false} PlaceBehind(reverseOrder: bool, sorted: seq<Message>, m: Message, first: Message)
    requires Before(reverseOrder, first, m) && forall k :: 0 <= k < |sorted| ==> Before(reverseOrder, first, sorted[k])
    ensures forall k :: 0 <= k <= |sorted| ==> Before(reverseOrder, first, Place(reverseOrder, sorted, m)[k])
  {
    var all := Place(reverseOrder, sorted, m);
    if sorted == [] {
    } else if Before(reverseOrder, m, sorted[0]) {
      assert forall k :: 1 <= k < |all| ==> all[k] == sorted[k - 1];
    } else {
      PlaceBehind(reverseOrder, sorted[1..], m, first);
      assert forall k :: 1 <= k < |all| ==> all[k] == Place(reverseOrder, sorted[1..], m)[k - 1];
    }
  }

  lemma {:induction false} PlaceFacts(reverseOrder: bool, sorted: seq<Message>, m: Message)
    ensures forall x :: x in Place(reverseOrder, sorted, m) <==> x == m || x in sorted
    ensures InOrder(reverseOrder, sorted) && m.id !in Ids(sorted) ==>
              InOrder(reverseOrder, Place(reverseOrder, sorted, m))
  {
    PlaceMembers(reverseOrder, sorted, m);
    if InOrder(reverseOrder, sorted) && m.id !in Ids(sorted) {
      PlaceInOrder(reverseOrder, sorted, m);
    }
  }

  lemma {:induction false} InOrderCons(reverseOrder: bool, first: Message, rest: seq<Message>)
    requires InOrder(reverseOrder, rest) && forall k :: 0 <= k < |rest| ==> Before(reverseOrder, first, rest[k])
    ensures InOrder(reverseOrder, [first] + rest)
  {
    var all := [first] + rest;
    forall i, j | 0 <= i < j < |all| ensures Before(reverseOrder, all[i], all[j]) {
      assert all[j] == rest[j - 1];
      assert i > 0 ==> all[i] == rest[i - 1];
    }
  }

  lemma {:induction false} PlaceInOrder(reverseOrder: bool, sorted: seq<Message>, m: Message)
    requires InOrder(reverseOrder, sorted) && m.id !in Ids(sorted)
    ensures InOrder(reverseOrder, Place(reverseOrder, sorted, m))
  {
    if sorted == [] {
    } else if Before(reverseOrder, m, sorted[0]) {
      forall k | 0 <= k < |sorted| ensures Before(reverseOrder, m, sorted[k]) {
        assert k > 0 ==> Before(reverseOrder, sorted[0], sorted[k]);
      }
    } else {
      var tail := sorted[1..];
      assert Ids(sorted)[0] == sorted[0].id;
      forall k | 0 <= k < |tail| ensures Ids(tail)[k] == Ids(sorted)[k + 1] {}
      PlaceInOrder(reverseOrder, tail, m);
      PlaceBehind(reverseOrder, tail, m, sorted[0]);
      InOrderCons(reverseOrder, sorted[0], Place(reverseOrder, tail, m));
    }
  }

  lemma {:induction false} ArrangedFacts(reverseOrder: bool, rows: seq<Message>)
    requires Distinct(Ids(rows))
    ensures forall x :: x in Arranged(reverseOrder, rows) <==> x in rows
    ensures InOrder(reverseOrder, Arranged(reverseOrder, rows))
    ensures Distinct(Ids(Arranged(reverseOrder, rows)))
  {
    if rows == [] {
    } else {
      var tail := rows[1..];
      assert rows == [rows[0]] + tail;
      forall k | 0 <= k < |tail| ensures Ids(tail)[k] == Ids(rows)[k + 1] {}
      ArrangedFacts(reverseOrder, tail);
      var sorted := Arranged(reverseOrder, tail);
      forall k | 0 <= k < |sorted| ensures Ids(sorted)[k] != rows[0].id {
        assert sorted[k] in sorted;
        var j :| 0 <= j < |tail| && tail[j] == sorted[k];
        assert Ids(rows)[j + 1] == sorted[k].id && Ids(rows)[0] == rows[0].id;
      }
      PlaceFacts(reverseOrder, sorted, rows[0]);
      PlaceDistinct(reverseOrder, sorted, rows[0]);
    }
  }

  lemma {:induction false} PlaceDistinct(reverseOrder: bool, sorted: seq<Message>, m: Message)
    requires Distinct(Ids(sorted)) && m.id !in Ids(sorted)
    ensures Distinct(Ids(Place(reverseOrder, sorted, m)))
  {
    forall k | 0 <= k < |sorted| ensures sorted[k].id != m.id {
      assert Ids(sorted)[k] in Ids(sorted);
    }
    if sorted == [] {
    } else if Before(reverseOrder, m, sorted[0]) {
      DistinctCons(m, sorted);
    } else {
      var tail := sorted[1..];
      assert sorted == [sorted[0]] + tail;
      forall k | 0 <= k < |tail| ensures Ids(tail)[k] == Ids(sorted)[k + 1] {}
      PlaceDistinct(reverseOrder, tail, m);
      PlaceFacts(reverseOrder, tail, m);
      var rest := Place(reverseOrder, tail, m);
      forall k | 0 <= k < |rest| ensures rest[k].id != sorted[0].id {
        assert rest[k] in rest;
        if rest[k] != m {
          assert rest[k] in tail;
          assert Ids(sorted)[0] == sorted[0].id;
        }
      }
      DistinctCons(sorted[0], rest);
    }
  }

  /** Sponsored messages count as newer than all others, and among each other the ids decide. */
  lemma {:induction false} SponsoredBehind(reverseOrder: bool, rows: seq<Message>, i: int, j: int)
    requires InOrder(reverseOrder, rows) && 0 <= i < j < |rows|
    ensures var older, newer := if reverseOrder then rows[j] else rows[i], if reverseOrder then rows[i] else rows[j];
            (older.isSponsored ==> newer.isSponsored)
            && (older.isSponsored == newer.isSponsored ==> older.id < newer.id)
  {
    assert Before(reverseOrder, rows[i], rows[j]);
  }

  /** Without sponsored messages the order is the order of the ids. */
  lemma {:induction false} OrderedIds(reverseOrder: bool, rows: seq<Message>)
    requires InOrder(reverseOrder, rows)
    requires forall k :: 0 <= k < |rows| ==> !rows[k].isSponsored
    ensures if reverseOrder then Descending(Ids(rows)) else Ascending(Ids(rows))
  {
    forall i, j | 0 <= i < j < |rows|
      ensures if reverseOrder then Ids(rows)[i] > Ids(rows)[j] else Ids(rows)[i] < Ids(rows)[j]
    {
      assert Before(reverseOrder, rows[i], rows[j]);
    }
  }
}
