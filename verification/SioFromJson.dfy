/** What from_json makes of any document, those no message has included. */
module SioFromJson {
  import opened Bytes
  import opened JsonDom
  import opened Options
  import opened SioMessage

  /** The value of the last member of that name. */
  function Last(ms: seq<Member>, name: bytes): Option<Value>
    decreases |ms|
  {
    if ms == [] then None
    else if ms[|ms| - 1].name == name then Some(ms[|ms| - 1].value)
    else Last(ms[..|ms| - 1], name)
  }

  /** An integer that fits 64 signed bits is an integer; a larger one is a null pointer. */
  lemma NumberRead(n: int, buffers: seq<bytes>)
    requires -0x8000_0000_0000_0000 <= n < 0x1_0000_0000_0000_0000
    ensures FromJson(JsonDom.Integer(n), buffers)
         == Some(if n < 0x8000_0000_0000_0000 then IntMessage(n) else Absent)
  {
  }

  /** FindMember finds the first member of a name. */
  lemma {:induction false} FindsFirst(ms: seq<Member>, name: bytes)
    ensures match FindMember(ms, name)
            case None => forall i | 0 <= i < |ms| :: ms[i].name != name
            case Some(v) =>
              exists i | 0 <= i < |ms| :: ms[i].name == name && ms[i].value == v
                                          && forall j | 0 <= j < i :: ms[j].name != name
  {
    if ms != [] {
      if ms[0].name != name {
        FindsFirst(ms[1..], name);
        if FindMember(ms[1..], name).Some? {
          var i :| 0 <= i < |ms[1..]| && ms[1..][i].name == name && ms[1..][i].value == FindMember(ms[1..], name).value
                   && forall j | 0 <= j < i :: ms[1..][j].name != name;
          assert ms[i + 1] == ms[1..][i];
          assert forall j | 0 < j < i + 1 :: ms[j] == ms[1..][j - 1];
        } else {
          assert forall j | 0 < j < |ms| :: ms[j] == ms[1..][j - 1];
        }
      }
    }
  }

  /** A placeholder stands for the buffer its number names, or for a null pointer when there is none; without a
      number that fits an int, or with a mark that is no bool, an assertion fails. */
  lemma MarkRead(ms: seq<Member>, buffers: seq<bytes>)
    requires |buffers| < 0x8000_0000
    requires FindMember(ms, PLACEHOLDER).Some? && FindMember(ms, PLACEHOLDER) != Some(BoolValue(false))
    ensures FromJson(ObjectValue(ms), buffers)
         == if FindMember(ms, PLACEHOLDER) != Some(BoolValue(true)) then None
            else if !NumberMember(ms, NUM) then None
            else
              var k := FindMember(ms, NUM).value.n;
              Some(if 0 <= k < |buffers| then BinaryMessage(buffers[k]) else Absent)
  {
  }

  /** The first member of the name is a number that fits an int. */
  predicate NumberMember(ms: seq<Member>, name: bytes) {
    var v := FindMember(ms, name);
    v.Some? && v.value.NumberValue? && v.value.flags.isInt
  }

  lemma {:induction false} MembersRead(ms: seq<Member>, buffers: seq<bytes>, acc: seq<Entry>)
    requires Ascending(acc)
    ensures FromMembers(ms, buffers, acc).Some? <==> forall i | 0 <= i < |ms| :: FromJson(ms[i].value, buffers).Some?
    ensures FromMembers(ms, buffers, acc).Some? ==>
              var es := FromMembers(ms, buffers, acc).value;
              && Ascending(es)
              && (forall key ::
                    Lookup(es, key)
                    == if Last(ms, key).Some? then FromJson(Last(ms, key).value, buffers) else Lookup(acc, key))
    decreases |ms|
  {
    hide FromJson, Ascending;
    if ms != [] {
      var m := FromJson(ms[0].value, buffers);
      if m.Some? {
        var acc' := Put(acc, ms[0].name, m.value);
        PutUpdates(acc, ms[0].name, m.value);
        MembersRead(ms[1..], buffers, acc');
        forall key ensures Last(ms, key) == (if Last(ms[1..], key).Some? then Last(ms[1..], key)
                                             else if ms[0].name == key then Some(ms[0].value) else None) {
          LastOfMore(ms[0], ms[1..], key);
          assert [ms[0]] + ms[1..] == ms;
        }
        assert forall i | 0 < i < |ms| :: ms[i] == ms[1..][i - 1];
      }
    }
  }

  lemma {:induction false} LastOfMore(m: Member, ms: seq<Member>, key: bytes)
    ensures Last([m] + ms, key)
         == if Last(ms, key).Some? then Last(ms, key) else if m.name == key then Some(m.value) else None
    decreases |ms|
  {
    var all := [m] + ms;
    if ms == [] {
      assert all[..|all| - 1] == [];
    } else {
      assert all[|all| - 1] == ms[|ms| - 1] && all[..|all| - 1] == [m] + ms[..|ms| - 1];
      LastOfMore(m, ms[..|ms| - 1], key);
    }
  }

  /** Any other object is the map of its members, where the last of a name counts; it fails when a member does. */
  lemma ObjectRead(ms: seq<Member>, buffers: seq<bytes>)
    requires FindMember(ms, PLACEHOLDER) == None || FindMember(ms, PLACEHOLDER) == Some(BoolValue(false))
    ensures FromJson(ObjectValue(ms), buffers).Some? <==>
              forall i | 0 <= i < |ms| :: FromJson(ms[i].value, buffers).Some?
    ensures FromJson(ObjectValue(ms), buffers).Some? ==> FromJson(ObjectValue(ms), buffers).value.ObjectMessage?
    ensures FromJson(ObjectValue(ms), buffers).Some? ==>
              var es := FromJson(ObjectValue(ms), buffers).value.entries;
              && Ascending(es)
              && (forall key ::
                    Lookup(es, key) == if Last(ms, key).Some? then FromJson(Last(ms, key).value, buffers) else None)
  {
    MembersRead(ms, buffers, []);
    hide Ascending, FromMembers;
  }

  /** An array is the list of its elements; it fails when one does. */
  lemma {:induction false} ArrayRead(vs: seq<Value>, buffers: seq<bytes>)
    ensures FromJson(ArrayValue(vs), buffers).Some? <==> forall i | 0 <= i < |vs| :: FromJson(vs[i], buffers).Some?
    ensures FromJson(ArrayValue(vs), buffers).Some? ==>
              && FromJson(ArrayValue(vs), buffers).value.ArrayMessage?
              && var ms := FromJson(ArrayValue(vs), buffers).value.elements;
                 |ms| == |vs| && forall i | 0 <= i < |vs| :: FromJson(vs[i], buffers) == Some(ms[i])
  {
    ElementsRead(vs, buffers);
    hide FromElements;
  }

  lemma {:induction false} ElementsRead(vs: seq<Value>, buffers: seq<bytes>)
    ensures FromElements(vs, buffers).Some? <==> forall i | 0 <= i < |vs| :: FromJson(vs[i], buffers).Some?
    ensures FromElements(vs, buffers).Some? ==>
              forall i | 0 <= i < |vs| :: FromJson(vs[i], buffers) == Some(FromElements(vs, buffers).value[i])
  {
    hide FromJson;
    if vs != [] {
      ElementsRead(vs[1..], buffers);
      assert forall i | 0 < i < |vs| :: vs[i] == vs[1..][i - 1];
    }
  }
}
