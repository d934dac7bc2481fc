/**
 * The WordPress error container (`WP_Error`) the plugin accumulates its validation
 * errors in.
 *
 * A container is modelled by the `add(code, message)` calls it has received, oldest
 * first. Its observable state is derived from them: the messages under a code are that
 * code's calls in order, the codes are listed in order of their first call (a PHP array
 * keeps insertion order), and `get_error_messages()` lists every message of the first
 * code, then every message of the second, and so on.
 *
 * WordPress codes and messages are strings; the model is generic in both (`C` for
 * codes, `M` for messages), since the container only ever compares codes.
 */
module WpError {

  /** One `add(code, message)` call. */
  datatype Entry<C, M> = Entry(code: C, message: M)

  /** A container, as the `add` calls it has received. */
  datatype Error<C, M> = Error(entries: seq<Entry<C, M>>)

  /** The messages of the calls that carry the given code, in call order. */
  function Filter<C(==), M>(entries: seq<Entry<C, M>>, code: C): seq<M>
  {
    if entries == [] then []
    else
      var last := entries[|entries| - 1];
      Filter(entries[..|entries| - 1], code) + (if last.code == code then [last.message] else [])
  }

  /** The messages of the calls, in call order. */
  function Messages<C, M>(entries: seq<Entry<C, M>>): seq<M>
  {
    if entries == [] then [] else Messages(entries[..|entries| - 1]) + [entries[|entries| - 1].message]
  }

  /** The codes of the calls, each once, in order of first use: the keys of `WP_Error::$errors`. */
  function Codes<C(==), M>(entries: seq<Entry<C, M>>): seq<C>
  {
    if entries == [] then []
    else
      var before := Codes(entries[..|entries| - 1]);
      var code := entries[|entries| - 1].code;
      if code in before then before else before + [code]
  }

  /** The messages of `codes`, code by code. */
  function Grouped<C(==), M>(codes: seq<C>, entries: seq<Entry<C, M>>): seq<M>
  {
    if codes == [] then []
    else Grouped(codes[..|codes| - 1], entries) + Filter(entries, codes[|codes| - 1])
  }

  /** `get_error_messages(code)`: the messages added under one code, oldest first. */
  function MessagesFor<C(==), M>(e: Error<C, M>, code: C): seq<M>
  {
    Filter(e.entries, code)
  }

  /** `get_error_messages()` with no code: every message, grouped by code. */
  function GetErrorMessages<C(==), M>(e: Error<C, M>): seq<M>
  {
    Grouped(Codes(e.entries), e.entries)
  }

  /** `count(get_error_messages())`. */
  function Count<C(==), M>(e: Error<C, M>): nat
  {
    |GetErrorMessages(e)|
  }

  /** No code is listed twice. */
  ghost predicate Distinct<C>(codes: seq<C>)
  {
    codes == [] || (codes[|codes| - 1] !in codes[..|codes| - 1] && Distinct(codes[..|codes| - 1]))
  }

  /** The codes of a list of `add` calls are pairwise distinct. */
  ghost predicate DistinctCodes<C, M>(entries: seq<Entry<C, M>>)
  {
    forall i, j :: 0 <= i < j < |entries| ==> entries[i].code != entries[j].code
  }

  /** `e2` is `e1` with more calls made: nothing removed or reordered. */
  ghost predicate Extends<C, M>(e1: Error<C, M>, e2: Error<C, M>)
  {
    |e1.entries| <= |e2.entries| && e2.entries[..|e1.entries|] == e1.entries
  }

  /** `new WP_Error`: a container with nothing in it. */
  function New<C(==), M>(): (e: Error<C, M>)
    ensures Count(e) == 0
    ensures Codes(e.entries) == []
  {
    Error([])
  }

  /**
   * `add(code, message)`: the message joins the end of its code's list, the code is
   * registered last if it is new, and `get_error_messages()` grows by one.
   */
  function Add<C(==), M>(e: Error<C, M>, code: C, message: M): (r: Error<C, M>)
    ensures Extends(e, r)
    ensures MessagesFor(r, code) == MessagesFor(e, code) + [message]
    ensures Codes(r.entries) == if code in Codes(e.entries) then Codes(e.entries) else Codes(e.entries) + [code]
    ensures Count(r) == Count(e) + 1
    ensures code !in Codes(e.entries) ==> GetErrorMessages(r) == GetErrorMessages(e) + [message]
  {
    var r := Error(e.entries + [Entry(code, message)]);
    assert r.entries[..|r.entries| - 1] == e.entries;
    CountIsCalls(e);
    CountIsCalls(r);
    if code in Codes(e.entries) then r
    else
      AddNewCode(e.entries, Entry(code, message));
      r
  }

  /** `add` touches no other code's messages. */
  lemma AddLeavesOtherCodes<C, M>(e: Error<C, M>, code: C, message: M, other: C)
    requires other != code
    ensures MessagesFor(Add(e, code, message), other) == MessagesFor(e, other)
  {
    var r := Add(e, code, message);
    assert r.entries[..|r.entries| - 1] == e.entries;
  }

  /** Every code the calls use is listed, and only those. */
  lemma {:induction false} CodesListed<C, M>(entries: seq<Entry<C, M>>, code: C)
    ensures code in Codes(entries) <==> exists i :: 0 <= i < |entries| && entries[i].code == code
  {
    if entries != [] {
      var init := entries[..|entries| - 1];
      CodesListed(init, code);
      assert forall i :: 0 <= i < |init| ==> init[i] == entries[i];
      if code in Codes(entries) && code !in Codes(init) {
        assert entries[|entries| - 1].code == code;
      }
    }
  }

  /** A code no call uses has no messages. */
  lemma {:induction false} UnlistedCodeIsEmpty<C, M>(entries: seq<Entry<C, M>>, code: C)
    requires code !in Codes(entries)
    ensures Filter(entries, code) == []
  {
    if entries != [] {
      var init := entries[..|entries| - 1];
      var last := entries[|entries| - 1];
      assert code != last.code && code !in Codes(init);
      UnlistedCodeIsEmpty(init, code);
    }
  }

  /** The listed codes are distinct. */
  lemma {:induction false} CodesDistinct<C, M>(entries: seq<Entry<C, M>>)
    ensures Distinct(Codes(entries))
  {
    if entries != [] {
      var init := entries[..|entries| - 1];
      CodesDistinct(init);
      var before := Codes(init);
      var code := entries[|entries| - 1].code;
      if code !in before {
        assert (before + [code])[..|before|] == before;
      }
    }
  }

  /** A call under a code outside `codes` does not change their messages. */
  lemma {:induction false} GroupedIgnoresOtherCode<C, M>(codes: seq<C>, entries: seq<Entry<C, M>>, x: Entry<C, M>)
    requires x.code !in codes
    ensures Grouped(codes, entries + [x]) == Grouped(codes, entries)
  {
    if codes != [] {
      var init := codes[..|codes| - 1];
      GroupedIgnoresOtherCode(init, entries, x);
      assert (entries + [x])[..|entries|] == entries;
    }
  }

  /** A call under a code listed exactly once among `codes` adds exactly one message to theirs. */
  lemma {:induction false} GroupedGrowsByOne<C, M>(codes: seq<C>, entries: seq<Entry<C, M>>, x: Entry<C, M>)
    requires Distinct(codes)
    requires x.code in codes
    ensures |Grouped(codes, entries + [x])| == |Grouped(codes, entries)| + 1
  {
    var init := codes[..|codes| - 1];
    var last := codes[|codes| - 1];
    assert (entries + [x])[..|entries|] == entries;
    if last == x.code {
      GroupedIgnoresOtherCode(init, entries, x);
    } else {
      assert x.code in init by {
        var k :| 0 <= k < |codes| && codes[k] == x.code;
        assert init[k] == x.code;
      }
      GroupedGrowsByOne(init, entries, x);
    }
  }

  /** A call under a new code ends `get_error_messages()` with its message. */
  lemma AddNewCode<C, M>(entries: seq<Entry<C, M>>, x: Entry<C, M>)
    requires x.code !in Codes(entries)
    ensures Grouped(Codes(entries + [x]), entries + [x]) == Grouped(Codes(entries), entries) + [x.message]
  {
    var after := entries + [x];
    assert after[..|after| - 1] == entries;
    assert Codes(after) == Codes(entries) + [x.code];
    assert (Codes(entries) + [x.code])[..|Codes(entries)|] == Codes(entries);
    GroupedIgnoresOtherCode(Codes(entries), entries, x);
    UnlistedCodeIsEmpty(entries, x.code);
  }

  /** `get_error_messages()` holds one message per `add` call: grouping reorders, it never drops or repeats. */
  lemma {:induction false} CountIsCalls<C, M>(e: Error<C, M>)
    ensures Count(e) == |e.entries|
    decreases |e.entries|
  {
    var entries := e.entries;
    if entries != [] {
      var init := entries[..|entries| - 1];
      var x := entries[|entries| - 1];
      assert init + [x] == entries;
      CountIsCalls(Error(init));
      if x.code in Codes(init) {
        CodesDistinct(init);
        GroupedGrowsByOne(Codes(init), init, x);
      } else {
        AddNewCode(init, x);
      }
    }
  }

  /** A sequence of `add` calls, in order. */
  function AddAll<C(==), M>(e: Error<C, M>, entries: seq<Entry<C, M>>): (r: Error<C, M>)
    ensures r.entries == e.entries + entries
    ensures Extends(e, r)
    ensures Count(r) == Count(e) + |entries|
  {
    if entries == [] then
      assert e.entries + entries == e.entries;
      e
    else
      var init := entries[..|entries| - 1];
      var before := AddAll(e, init);
      assert e.entries + entries == (e.entries + init) + [entries[|entries| - 1]];
      Add(before, entries[|entries| - 1].code, entries[|entries| - 1].message)
  }

  /** Filtering distributes over concatenation. */
  lemma {:induction false} FilterAppend<C, M>(a: seq<Entry<C, M>>, b: seq<Entry<C, M>>, code: C)
    ensures Filter(a + b, code) == Filter(a, code) + Filter(b, code)
  {
    if b == [] {
      assert a + b == a;
    } else {
      var init := b[..|b| - 1];
      var last := b[|b| - 1];
      assert (a + b)[..|a + b| - 1] == a + init;
      FilterAppend(a, init, code);
      AppendAssociative(Filter(a, code), Filter(init, code), if last.code == code then [last.message] else []);
    }
  }

  /** After a sequence of `add` calls, each code lists its old messages followed by the new ones under it, in call order. */
  lemma AddAllMessagesFor<C, M>(e: Error<C, M>, entries: seq<Entry<C, M>>, code: C)
    ensures MessagesFor(AddAll(e, entries), code) == MessagesFor(e, code) + Filter(entries, code)
  {
    FilterAppend(e.entries, entries, code);
  }

  lemma AppendAssociative<T>(a: seq<T>, b: seq<T>, c: seq<T>)
    ensures (a + b) + c == a + (b + c)
  {
  }

  /** A code outside `a` that no call in `b` uses is still unlisted after `b`. */
  lemma {:induction false} StillUnlisted<C, M>(a: seq<Entry<C, M>>, b: seq<Entry<C, M>>, code: C)
    requires code !in Codes(a)
    requires forall i :: 0 <= i < |b| ==> b[i].code != code
    ensures code !in Codes(a + b)
  {
    if b == [] {
      assert a + b == a;
    } else {
      var init := b[..|b| - 1];
      assert (a + b)[..|a + b| - 1] == a + init;
      assert forall i :: 0 <= i < |init| ==> init[i] == b[i];
      StillUnlisted(a, init, code);
    }
  }

  /**
   * Adding messages under fresh, distinct codes appends them to `get_error_messages()`
   * in call order; in particular a new container lists them exactly as added.
   */
  lemma {:induction false} AddAllFreshCodes<C, M>(e: Error<C, M>, entries: seq<Entry<C, M>>)
    requires DistinctCodes(entries)
    requires forall i :: 0 <= i < |entries| ==> entries[i].code !in Codes(e.entries)
    ensures GetErrorMessages(AddAll(e, entries)) == GetErrorMessages(e) + Messages(entries)
  {
    if entries != [] {
      var init := entries[..|entries| - 1];
      var last := entries[|entries| - 1];
      var before := AddAll(e, init);
      assert forall i :: 0 <= i < |init| ==> init[i] == entries[i];
      AddAllFreshCodes(e, init);
      StillUnlisted(e.entries, init, last.code);
      assert AddAll(e, entries) == Add(before, last.code, last.message);
      AppendAssociative(GetErrorMessages(e), Messages(init), [last.message]);
    }
  }

  /**
   * Once a code is listed, a later message under it is shown in that code's group and not
   * last: `get_error_messages()` is not the chronological list of `add` calls.
   */
  lemma GroupedNotChronological<C, M>(a: C, b: C, first: M, second: M, third: M)
    requires a != b
    ensures
      var e := Add(Add(Add(New(), a, first), b, second), a, third);
      GetErrorMessages(e) == [first, third, second]
  {
    var e := Add(Add(Add(New(), a, first), b, second), a, third);
    assert e.entries == [Entry(a, first), Entry(b, second), Entry(a, third)];
    ThreeCalls(a, b, first, second, third);
  }

  /** `get_error_messages()` after the calls `a`, `b`, `a`. */
  lemma ThreeCalls<C, M>(a: C, b: C, first: M, second: M, third: M)
    requires a != b
    ensures var calls := [Entry(a, first), Entry(b, second), Entry(a, third)];
      GetErrorMessages(Error(calls)) == [first, third, second]
  {
    var x, y, z := Entry(a, first), Entry(b, second), Entry(a, third);
    var one, two, three := [x], [x, y], [x, y, z];
    assert three[..2] == two && two[..1] == one && one[..0] == [];
    assert Codes(three) == [a, b] by {
      assert Codes(one) == [a];
      assert Codes(two) == [a, b];
    }
    assert Filter(three, a) == [first, third] by {
      assert Filter(one, a) == [first];
      assert Filter(two, a) == [first];
    }
    assert Filter(three, b) == [second] by {
      assert Filter(one, b) == [];
    }
    assert [a, b][..1] == [a] && [a][..0] == [];
    assert Grouped([a], three) == [first, third];
  }
}
