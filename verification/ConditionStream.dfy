/** The streams that conditions are written to and read from. */
module ConditionStreams {
  import opened Options
  import opened Bytes
  import opened ConditionFormat
  import opened ConditionRoundTrip

  class PropWriteStream {
    var buffer: seq<Byte>

    constructor ()
      ensures buffer == []
    {
      buffer := [];
    }

    method Write(tag: Byte, payload: seq<Byte>)
      modifies this
      ensures buffer == old(buffer) + Render([Prop(tag, payload)])
    {
      OneProp(Prop(tag, payload));
      buffer := buffer + [tag];
      buffer := buffer + payload;
    }

    /** Writes a value for every word of a list. */
    method WriteWords(tag: Byte, ws: seq<Word>)
      modifies this
      ensures buffer == old(buffer) + Render(WordProps(tag, ws))
    {
      assert ws[0..] == ws;
      for i := 0 to |ws|
        invariant buffer + Render(WordProps(tag, ws[i..])) == old(buffer) + Render(WordProps(tag, ws))
      {
        WordsStep(tag, ws, i);
        ghost var rest := Render(WordProps(tag, ws[i + 1..]));
        Joined(buffer, Render([Prop(tag, WordBytes(ws[i]))]), rest);
        Write(tag, WordBytes(ws[i]));
      }
      assert ws[|ws|..] == [];
    }

    /** The fixed head of every condition. */
    method WriteHeader(h: Header)
      modifies this
      ensures buffer == old(buffer) + Render(HeaderProps(h))
    {
      hide Render;
      ghost var ps := HeaderProps(h);
      assert ps[..1] == [ps[0]];
      Write(TYPE, WordBytes(h.kind));
      Write(ID, WordBytes(IdWord(h.id)));
      PropsJoin(old(buffer), ps[..1], [ps[1]]);
      assert ps[..1] + [ps[1]] == ps[..2];
      Write(TICKS, WordBytes(h.ticks));
      PropsJoin(old(buffer), ps[..2], [ps[2]]);
      assert ps[..2] + [ps[2]] == ps[..3];
      Write(ISBUFF, Flag(h.buff));
      PropsJoin(old(buffer), ps[..3], [ps[3]]);
      assert ps[..3] + [ps[3]] == ps[..4];
      Write(SUBID, WordBytes(h.subId));
      PropsJoin(old(buffer), ps[..4], [ps[4]]);
      assert ps[..4] + [ps[4]] == ps[..5];
      Write(ISAGGRESSIVE, Flag(h.aggressive));
      PropsJoin(old(buffer), ps[..5], [ps[5]]);
      assert ps[..5] + [ps[5]] == ps[..6];
      assert ps[..6] == ps;
    }

    method WriteList(ps: seq<Prop>)
      modifies this
      ensures buffer == old(buffer) + Render(ps)
    {
      hide Render;
      assert ps[0..] == ps;
      EmptyRender();
      assert old(buffer) + [] == old(buffer);
      for i := 0 to |ps|
        invariant buffer == old(buffer) + Render(ps[..i])
      {
        Write(ps[i].tag, ps[i].payload);
        PropsJoin(old(buffer), ps[..i], [ps[i]]);
        assert ps[..i] + [ps[i]] == ps[..i + 1];
      }
      assert ps[..|ps|] == ps;
    }

    /** Writes a condition: its head and what its kind has besides. */
    method Serialize(c: Condition)
      modifies this
      ensures buffer == old(buffer) + (Render(HeaderProps(c.header)) + Render(Props(c.data)))
    {
      hide Render, HeaderProps;
      WriteHeader(c.header);
      ghost var b := buffer;
      EmptyRender();
      match c.data {
        case Damage(delayed, period, rounds) =>
          Write(DELAYED, Flag(delayed));
          Write(PERIODDAMAGE, WordBytes(period));
          PropsJoin(b, [Prop(DELAYED, Flag(delayed))], [Prop(PERIODDAMAGE, WordBytes(period))]);
          ghost var b1 := buffer;
          ghost var two := [Prop(DELAYED, Flag(delayed)), Prop(PERIODDAMAGE, WordBytes(period))];
          assert [two[0]] + [two[1]] == two;
          assert rounds[0..] == rounds;
          for i := 0 to |rounds|
            invariant buffer + Render(RoundProps(rounds[i..])) == b1 + Render(RoundProps(rounds))
          {
            RoundsStep(rounds, i);
            Joined(buffer, Render([Prop(INTERVALDATA, RoundBytes(rounds[i]))]), Render(RoundProps(rounds[i + 1..])));
            Write(INTERVALDATA, RoundBytes(rounds[i]));
          }
          assert rounds[|rounds|..] == [];
          assert buffer + [] == buffer;
          PropsJoin(b, two, RoundProps(rounds));
        case Attributes(skills, stats, disable, specials, _, _, _) =>
          WriteWords(SKILLS, skills);
          WriteWords(STATS, stats);
          Write(DISABLEDEFENSE, Flag(disable));
          WriteWords(SPECIALSKILLS, specials);
          AttributesJoin(b, WordProps(SKILLS, skills), WordProps(STATS, stats), [Prop(DISABLEDEFENSE, Flag(disable))],
                         WordProps(SPECIALSKILLS, specials));
        case _ =>
          WriteList(Props(c.data));
      }
      Joined(old(buffer), Render(HeaderProps(c.header)), Render(Props(c.data)));
    }

    /** Writes the persistent conditions of a player, each with an end mark. */
    method SaveConditions(conditions: seq<Condition>)
      modifies this
      ensures buffer == old(buffer) + EncodeAll(conditions)
    {
      hide Encode, IsPersistent;
      assert conditions[0..] == conditions;
      for i := 0 to |conditions|
        invariant buffer + EncodeAll(conditions[i..]) == old(buffer) + EncodeAll(conditions)
      {
        var condition := conditions[i];
        assert conditions[i..][0] == condition && conditions[i..][1..] == conditions[i + 1..];
        ghost var b := buffer;
        if IsPersistent(condition) {
          Serialize(condition);
          buffer := buffer + [END];
          WithEnd(b, condition);
          Joined(b, Encode(condition), EncodeAll(conditions[i + 1..]));
        } else {
          assert [] + EncodeAll(conditions[i + 1..]) == EncodeAll(conditions[i + 1..]);
        }
      }
      assert conditions[|conditions|..] == [];
      assert EncodeAll([]) == [];
      assert buffer + [] == buffer;
    }
  }

  class PropStream {
    const data: seq<Byte>
    var p: nat

    constructor (data: seq<Byte>)
      ensures this.data == data && p == 0
    {
      this.data, p := data, 0;
    }

    ghost predicate Valid()
      reads this
    {
      p <= |data|
    }

    /** Takes some bytes, or nothing when there are not as many. */
    method Read(size: nat) returns (ok: bool, bytes: seq<Byte>)
      requires Valid()
      modifies this`p
      ensures Valid() && (ok <==> old(p) + size <= |data|)
      ensures ok ==> bytes == data[old(p)..old(p) + size] && p == old(p) + size
      ensures !ok ==> p == old(p)
    {
      if |data| - p < size {
        return false, [];
      }
      bytes := data[p..p + size];
      p := p + size;
      ok := true;
    }

    method ReadTagged(tag: Byte, size: nat) returns (ok: bool, bytes: seq<Byte>)
      requires Valid()
      modifies this`p
      ensures Valid()
      ensures ok ==> Tagged(data, old(p), tag, size) == Some(bytes) && |bytes| == size && p == old(p) + 1 + size
      ensures !ok ==> Tagged(data, old(p), tag, size) == None
    {
      var attr;
      ok, attr := Read(1);
      if !ok || attr[0] != tag {
        return false, [];
      }
      ok, bytes := Read(size);
    }

    /** Reads the head of a condition and creates it; None when there is none or its type is unknown. */
    method CreateCondition() returns (c: Option<Condition>)
      requires Valid()
      modifies this`p
      ensures Valid() && c == DecodeHeader(data, old(p)) && (c.Some? ==> p == old(p) + HEADER_SIZE)
    {
      hide Tagged, Created;
      c := None;
      var ok, kind := ReadTagged(TYPE, 4);
      if !ok { return; }
      var id, ticks, buff, subId, aggressive;
      ok, id := ReadTagged(ID, 4);
      if !ok { return; }
      ok, ticks := ReadTagged(TICKS, 4);
      if !ok { return; }
      ok, buff := ReadTagged(ISBUFF, 1);
      if !ok { return; }
      ok, subId := ReadTagged(SUBID, 4);
      if !ok { return; }
      ok, aggressive := ReadTagged(ISAGGRESSIVE, 1);
      if !ok { return; }
      c := Created(Header(WordOf(kind), IdOf(WordOf(id)), WordOf(ticks), buff[0] != 0, WordOf(subId),
                          aggressive[0] != 0));
    }

    /** Reads the values of a condition up to its end mark. */
    method Unserialize(c: Condition) returns (ok: bool, c': Condition)
      requires Valid()
      modifies this`p
      ensures Valid() && DecodeProps(c, data, old(p)) == ConditionFormat.Read.Read(ok, c', p)
    {
      hide Width, Apply;
      c' := c;
      while p < |data|
        invariant Valid() && DecodeProps(c', data, p) == DecodeProps(c, data, old(p))
        decreases |data| - p
      {
        ghost var i := p;
        var more, attr := Read(1);
        if attr[0] == END {
          return true, c';
        }
        var width := Width(c'.data, attr[0]);
        if width.None? {
          return false, c';
        }
        var got, bytes := Read(width.value);
        if !got {
          return false, c';
        }
        c' := Apply(c', Prop(attr[0], bytes));
      }
      ok := true;
    }

    /** Reads conditions as long as there are any, each to the front of the list. */
    method LoadConditions() returns (list: seq<Condition>)
      requires Valid()
      modifies this`p
      ensures Valid() && list == Load(data, old(p), [])
    {
      hide DecodeHeader, DecodeProps;
      list := [];
      ghost var i := p;
      var condition := CreateCondition();
      while condition.Some?
        invariant Valid() && i <= |data| && condition == DecodeHeader(data, i)
                  && (condition.Some? ==> p == i + HEADER_SIZE)
        invariant Load(data, i, list) == Load(data, old(p), [])
        decreases |data| - i
      {
        var ok, c := Unserialize(condition.value);
        if ok {
          list := [c] + list;
        }
        i := p;
        condition := CreateCondition();
      }
    }
  }

  /** Saving and loading through the streams. */
  method SaveThenLoad(conditions: seq<Condition>) returns (list: seq<Condition>)
    requires forall c | c in conditions :: Fitting(c)
    ensures list == AllRestored(Persistent(conditions))
  {
    hide Fitting, Load;
    var out := new PropWriteStream();
    out.SaveConditions(conditions);
    assert [] + EncodeAll(conditions) == EncodeAll(conditions);
    var stream := new PropStream(out.buffer);
    list := stream.LoadConditions();
    SaveAndLoad(conditions);
  }

  // ----- Joining what is written

  lemma OneProp(p: Prop)
    ensures Render([p]) == [p.tag] + p.payload
  {
    assert [p][1..] == [];
  }

  lemma EmptyRender()
    ensures Render([]) == []
  {
  }

  lemma Joined(b: seq<Byte>, x: seq<Byte>, y: seq<Byte>)
    ensures b + x + y == b + (x + y)
  {
  }

  lemma PropsJoin(b: seq<Byte>, ps: seq<Prop>, qs: seq<Prop>)
    ensures b + Render(ps) + Render(qs) == b + Render(ps + qs)
  {
    RenderConcat(ps, qs);
  }

  lemma AttributesJoin(b: seq<Byte>, ps: seq<Prop>, qs: seq<Prop>, rs: seq<Prop>, ts: seq<Prop>)
    ensures b + Render(ps) + Render(qs) + Render(rs) + Render(ts) == b + Render(ps + (qs + (rs + ts)))
  {
    hide Render;
    PropsJoin(b + Render(ps) + Render(qs), rs, ts);
    PropsJoin(b + Render(ps), qs, rs + ts);
    PropsJoin(b, ps, qs + (rs + ts));
  }

  lemma WordsStep(tag: Byte, ws: seq<Word>, i: nat)
    requires i < |ws|
    ensures Render(WordProps(tag, ws[i..]))
            == Render([Prop(tag, WordBytes(ws[i]))]) + Render(WordProps(tag, ws[i + 1..]))
  {
    assert ws[i..][1..] == ws[i + 1..];
    RenderConcat([Prop(tag, WordBytes(ws[i]))], WordProps(tag, ws[i + 1..]));
  }

  lemma RoundsStep(rounds: seq<Round>, i: nat)
    requires i < |rounds|
    ensures Render(RoundProps(rounds[i..]))
            == Render([Prop(INTERVALDATA, RoundBytes(rounds[i]))]) + Render(RoundProps(rounds[i + 1..]))
  {
    assert rounds[i..][1..] == rounds[i + 1..];
    RenderConcat([Prop(INTERVALDATA, RoundBytes(rounds[i]))], RoundProps(rounds[i + 1..]));
  }

  lemma WithEnd(b: seq<Byte>, c: Condition)
    ensures b + (Render(HeaderProps(c.header)) + Render(Props(c.data))) + [END] == b + Encode(c)
  {
    hide Render, Props, HeaderProps;
  }
}
