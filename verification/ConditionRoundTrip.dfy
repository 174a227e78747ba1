/** Reading back what was written gives the conditions again, last one first. */
module ConditionRoundTrip {
  import opened Options
  import opened Bytes
  import opened ConditionFormat

  /** Data of the shape its type asks for. */
  predicate Fitting(c: Condition) {
    match Blank(c.header.kind)
    case None => false
    case Some(d) =>
      && (d.Generic? <==> c.data.Generic?) && (d.Drunk? <==> c.data.Drunk?)
         && (d.Regeneration? <==> c.data.Regeneration?)
      && (d.Soul? <==> c.data.Soul?) && (d.Damage? <==> c.data.Damage?) && (d.Speed? <==> c.data.Speed?)
      && (d.Attributes? <==> c.data.Attributes?) && (d.Light? <==> c.data.Light?) && (d.Outfit? <==> c.data.Outfit?)
      && (c.data.Outfit? ==> |c.data.look| == OUTFIT_SIZE)
      && (c.data.Attributes? ==>
            |c.data.skills| == SKILL_COUNT && |c.data.stats| == STAT_COUNT
                && |c.data.specialSkills| == SPECIALSKILL_COUNT)
  }

  /** Ticks summed up from the intervals of the rounds. */
  function SumTicks(ticks: Word, rounds: seq<Round>): Word
    decreases |rounds|
  {
    if rounds == [] then ticks else SumTicks(AddTicks(ticks, rounds[0].interval), rounds[1..])
  }

  /** What comes back: ticks of damage are counted anew, drunkenness is the usual one, the counters stand at the end. */
  function Restored(c: Condition): Condition {
    match c.data
    case Damage(_, _, rounds) => c.(header := c.header.(ticks := SumTicks(0, rounds)))
    case Drunk(_) => c.(data := Drunk(DRUNKENNESS))
    case Attributes(_, _, _, _, _, _, _) =>
      c.(data := c.data.(currentSkill := SKILL_COUNT, currentStat := STAT_COUNT,
                         currentSpecialSkill := SPECIALSKILL_COUNT))
    case _ => c
  }

  // ----- Values one after the other

  /** Every value in turn is one the condition knows, of the right size. */
  predicate Readable(c: Condition, ps: seq<Prop>)
    decreases |ps|
  {
    ps != [] ==>
      ps[0].tag != END && Width(c.data, ps[0].tag) == Some(|ps[0].payload|) && Readable(Apply(c, ps[0]), ps[1..])
  }

  function ApplyAll(c: Condition, ps: seq<Prop>): Condition
    requires Readable(c, ps)
    decreases |ps|
  {
    if ps == [] then c else ApplyAll(Apply(c, ps[0]), ps[1..])
  }

  lemma {:induction false} RenderConcat(ps: seq<Prop>, qs: seq<Prop>)
    ensures Render(ps + qs) == Render(ps) + Render(qs)
  {
    if ps == [] {
      assert ps + qs == qs;
    } else {
      assert (ps + qs)[1..] == ps[1..] + qs;
      RenderConcat(ps[1..], qs);
    }
  }

  lemma {:induction false} ReadableConcat(c: Condition, ps: seq<Prop>, qs: seq<Prop>)
    requires Readable(c, ps)
    ensures Readable(c, ps + qs) <==> Readable(ApplyAll(c, ps), qs)
    ensures Readable(c, ps + qs) ==> ApplyAll(c, ps + qs) == ApplyAll(ApplyAll(c, ps), qs)
    decreases |ps|
  {
    hide Width, Apply;
    if ps == [] {
      assert ps + qs == qs;
    } else {
      assert (ps + qs)[0] == ps[0] && (ps + qs)[1..] == ps[1..] + qs;
      ReadableConcat(Apply(c, ps[0]), ps[1..], qs);
    }
  }

  /** Whatever bytes the values hold, the end mark is found where it was written. */
  lemma {:induction false} ReadsProps(s: seq<Byte>, i: nat, c: Condition, ps: seq<Prop>)
    requires Readable(c, ps) && At(s, i, Render(ps) + [END])
    ensures i + |Render(ps)| < |s|
    ensures DecodeProps(c, s, i) == Read(true, ApplyAll(c, ps), i + |Render(ps)| + 1)
    decreases |ps|
  {
    hide At, Width, Apply;
    AtParts(s, i, Render(ps), [END]);
    AtByte(s, i + |Render(ps)|, END);
    if ps != [] {
      var p := ps[0];
      var n := 1 + |p.payload|;
      AtFirstProp(s, i, ps);
      AtParts(s, i + n, Render(ps[1..]), [END]);
      ReadsProps(s, i + n, Apply(c, p), ps[1..]);
      assert Prop(s[i], s[i + 1..i + n]) == p;
    }
  }

  lemma AtFirstProp(s: seq<Byte>, i: nat, ps: seq<Prop>)
    requires ps != [] && At(s, i, Render(ps))
    ensures var p := ps[0];
            && i + 1 + |p.payload| <= |s| && s[i] == p.tag && s[i + 1..i + 1 + |p.payload|] == p.payload
            && At(s, i + 1 + |p.payload|, Render(ps[1..]))
  {
    hide At;
    var p := ps[0];
    assert Render(ps) == [p.tag] + (p.payload + Render(ps[1..]));
    AtParts(s, i, [p.tag], p.payload + Render(ps[1..]));
    AtParts(s, i + 1, p.payload, Render(ps[1..]));
    AtIs(s, i + 1, p.payload);
    AtByte(s, i, p.tag);
  }

  // ----- What each kind of condition reads

  lemma {:induction false} ReadsRounds(c: Condition, rounds: seq<Round>)
    requires c.data.Damage?
    ensures Readable(c, RoundProps(rounds))
    ensures ApplyAll(c, RoundProps(rounds)) ==
            Condition(c.header.(ticks := SumTicks(c.header.ticks, rounds)), c.data.(rounds := c.data.rounds + rounds))
    decreases |rounds|
  {
    if rounds == [] {
      assert c.data.rounds + rounds == c.data.rounds;
    } else {
      var p := Prop(INTERVALDATA, RoundBytes(rounds[0]));
      RoundInverse(rounds[0]);
      var c' := Apply(c, p);
      assert c'.data.rounds == c.data.rounds + [rounds[0]];
      ReadsRounds(c', rounds[1..]);
      assert c.data.rounds + [rounds[0]] + rounds[1..] == c.data.rounds + rounds;
      assert RoundProps(rounds)[1..] == RoundProps(rounds[1..]);
    }
  }

  lemma RoundInverse(r: Round)
    ensures RoundOf(RoundBytes(r)) == r
  {
    WordInverse(r.timeLeft);
    WordInverse(r.value);
    WordInverse(r.interval);
    var bs := RoundBytes(r);
    assert bs[0..4] == WordBytes(r.timeLeft) && bs[4..8] == WordBytes(r.value) && bs[8..12] == WordBytes(r.interval);
  }

  /** Every counted value lands in its place. */
  lemma {:induction false} ReadsSkills(c: Condition, ws: seq<Word>)
    requires c.data.Attributes? && c.data.currentSkill + |ws| == |c.data.skills|
    ensures Readable(c, WordProps(SKILLS, ws))
    ensures ApplyAll(c, WordProps(SKILLS, ws)) ==
            c.(data := c.data.(skills := c.data.skills[..c.data.currentSkill] + ws, currentSkill := |c.data.skills|))
    decreases |ws|
  {
    var d := c.data;
    if ws == [] {
      assert d.skills[..d.currentSkill] + ws == d.skills;
    } else {
      WordInverse(ws[0]);
      var c' := Apply(c, Prop(SKILLS, WordBytes(ws[0])));
      ReadsSkills(c', ws[1..]);
      assert c'.data.skills[..c'.data.currentSkill] + ws[1..] == d.skills[..d.currentSkill] + ws;
      assert WordProps(SKILLS, ws)[1..] == WordProps(SKILLS, ws[1..]);
    }
  }

  lemma {:induction false} ReadsStats(c: Condition, ws: seq<Word>)
    requires c.data.Attributes? && c.data.currentStat + |ws| == |c.data.stats|
    ensures Readable(c, WordProps(STATS, ws))
    ensures ApplyAll(c, WordProps(STATS, ws)) ==
            c.(data := c.data.(stats := c.data.stats[..c.data.currentStat] + ws, currentStat := |c.data.stats|))
    decreases |ws|
  {
    var d := c.data;
    if ws == [] {
      assert d.stats[..d.currentStat] + ws == d.stats;
    } else {
      WordInverse(ws[0]);
      var c' := Apply(c, Prop(STATS, WordBytes(ws[0])));
      ReadsStats(c', ws[1..]);
      assert c'.data.stats[..c'.data.currentStat] + ws[1..] == d.stats[..d.currentStat] + ws;
      assert WordProps(STATS, ws)[1..] == WordProps(STATS, ws[1..]);
    }
  }

  lemma {:induction false} ReadsSpecialSkills(c: Condition, ws: seq<Word>)
    requires c.data.Attributes? && c.data.currentSpecialSkill + |ws| == |c.data.specialSkills|
    ensures Readable(c, WordProps(SPECIALSKILLS, ws))
    ensures ApplyAll(c, WordProps(SPECIALSKILLS, ws)) ==
            c.(data := c.data.(specialSkills := c.data.specialSkills[..c.data.currentSpecialSkill] + ws,
                               currentSpecialSkill := |c.data.specialSkills|))
    decreases |ws|
  {
    var d := c.data;
    if ws == [] {
      assert d.specialSkills[..d.currentSpecialSkill] + ws == d.specialSkills;
    } else {
      WordInverse(ws[0]);
      var c' := Apply(c, Prop(SPECIALSKILLS, WordBytes(ws[0])));
      ReadsSpecialSkills(c', ws[1..]);
      assert c'.data.specialSkills[..c'.data.currentSpecialSkill] + ws[1..]
          == d.specialSkills[..d.currentSpecialSkill] + ws;
      assert WordProps(SPECIALSKILLS, ws)[1..] == WordProps(SPECIALSKILLS, ws[1..]);
    }
  }

  lemma ReadsOne(c: Condition, p: Prop)
    requires p.tag != END && Width(c.data, p.tag) == Some(|p.payload|)
    ensures Readable(c, [p]) && ApplyAll(c, [p]) == Apply(c, p)
  {
    hide Width, Apply;
    assert [p][1..] == [];
  }

  lemma ReadsAttributes(b: Condition, c: Condition)
    requires b.data == Attributes(Zeros(SKILL_COUNT), Zeros(STAT_COUNT), false, Zeros(SPECIALSKILL_COUNT), 0, 0, 0)
    requires Fitting(c) && c.data.Attributes?
    ensures Readable(b, Props(c.data)) && ApplyAll(b, Props(c.data)) == b.(data := Restored(c).data)
  {
    hide Readable, ApplyAll, WordProps, Zeros;
    var d := c.data;
    var ps, qs, rs, ts := WordProps(SKILLS, d.skills), WordProps(STATS, d.stats),
        [Prop(DISABLEDEFENSE, Flag(d.disableDefense))],
                          WordProps(SPECIALSKILLS, d.specialSkills);
    ReadsSkills(b, d.skills);
    var b1 := ApplyAll(b, ps);
    assert b1.data.skills == d.skills;
    ReadsStats(b1, d.stats);
    var b2 := ApplyAll(b1, qs);
    assert b2.data.stats == d.stats;
    ReadsOne(b2, rs[0]);
    var b3 := ApplyAll(b2, rs);
    ReadsSpecialSkills(b3, d.specialSkills);
    var b4 := ApplyAll(b3, ts);
    assert b4.data.specialSkills == d.specialSkills;
    ReadableConcat(b2, rs, ts);
    ReadableConcat(b1, qs, rs + ts);
    ReadableConcat(b, ps, qs + (rs + ts));
  }

  lemma ReadsDamage(b: Condition, c: Condition)
    requires b.data == Damage(false, 0, []) && b.header.ticks == 0 && c.data.Damage?
    ensures Readable(b, Props(c.data))
    ensures ApplyAll(b, Props(c.data)) == Condition(b.header.(ticks := SumTicks(0, c.data.rounds)), c.data)
  {
    hide Readable, ApplyAll, RoundProps;
    var d := c.data;
    WordInverse(d.periodDamage);
    var p, q := Prop(DELAYED, Flag(d.delayed)), Prop(PERIODDAMAGE, WordBytes(d.periodDamage));
    ReadsOne(b, p);
    var b1 := Apply(b, p);
    ReadsOne(b1, q);
    var b2 := Apply(b1, q);
    ReadsRounds(b2, d.rounds);
    assert [] + d.rounds == d.rounds;
    ReadableConcat(b1, [q], RoundProps(d.rounds));
    ReadableConcat(b, [p], [q] + RoundProps(d.rounds));
    assert [p] + ([q] + RoundProps(d.rounds)) == Props(d);
  }

  lemma ReadsTwo(c: Condition, p: Prop, q: Prop)
    requires p.tag != END && Width(c.data, p.tag) == Some(|p.payload|)
    requires q.tag != END && Width(Apply(c, p).data, q.tag) == Some(|q.payload|)
    ensures Readable(c, [p, q]) && ApplyAll(c, [p, q]) == Apply(Apply(c, p), q)
  {
    ReadsOne(c, p);
    ReadsOne(Apply(c, p), q);
    ReadableConcat(c, [p], [q]);
    assert [p] + [q] == [p, q];
  }

  /** Four values, read two by two. */
  lemma ReadsFour(c: Condition, ps: seq<Prop>)
    requires |ps| == 4 && Readable(c, ps[..2]) && Readable(ApplyAll(c, ps[..2]), ps[2..])
    ensures Readable(c, ps) && ApplyAll(c, ps) == ApplyAll(ApplyAll(c, ps[..2]), ps[2..])
  {
    ReadableConcat(c, ps[..2], ps[2..]);
    assert ps[..2] + ps[2..] == ps;
  }

  lemma ReadsRegeneration(b: Condition, c: Condition)
    requires b.data.Regeneration? && c.data.Regeneration?
    ensures Readable(b, Props(c.data)) && ApplyAll(b, Props(c.data)) == b.(data := c.data)
  {
    hide Readable, ApplyAll;
    var d, ps := c.data, Props(c.data);
    WordInverse(d.healthTicks);
    WordInverse(d.healthGain);
    WordInverse(d.manaTicks);
    WordInverse(d.manaGain);
    ReadsTwo(b, ps[0], ps[1]);
    assert ps[..2] == [ps[0], ps[1]] && ps[2..] == [ps[2], ps[3]];
    ReadsTwo(ApplyAll(b, ps[..2]), ps[2], ps[3]);
    ReadsFour(b, ps);
  }

  lemma ReadsLight(b: Condition, c: Condition)
    requires b.data.Light? && c.data.Light?
    ensures Readable(b, Props(c.data)) && ApplyAll(b, Props(c.data)) == b.(data := c.data)
  {
    hide Readable, ApplyAll;
    var d, ps := c.data, Props(c.data);
    WordInverse(d.color);
    WordInverse(d.level);
    WordInverse(d.lightTicks);
    WordInverse(d.lightInterval);
    ReadsTwo(b, ps[0], ps[1]);
    assert ps[..2] == [ps[0], ps[1]] && ps[2..] == [ps[2], ps[3]];
    ReadsTwo(ApplyAll(b, ps[..2]), ps[2], ps[3]);
    ReadsFour(b, ps);
  }

  lemma ReadsSpeed(b: Condition, c: Condition)
    requires b.data.Speed? && c.data.Speed?
    ensures Readable(b, Props(c.data)) && ApplyAll(b, Props(c.data)) == b.(data := c.data)
  {
    hide Readable, ApplyAll;
    var d, ps := c.data, Props(c.data);
    WordInverse(d.speedDelta);
    WordInverse(d.mina);
    WordInverse(d.minb);
    WordInverse(d.maxa);
    WordInverse(d.maxb);
    var qs := ps[1..];
    ReadsOne(b, ps[0]);
    var b1 := Apply(b, ps[0]);
    ReadsTwo(b1, qs[0], qs[1]);
    assert qs[..2] == [qs[0], qs[1]] && qs[2..] == [qs[2], qs[3]];
    ReadsTwo(ApplyAll(b1, qs[..2]), qs[2], qs[3]);
    ReadsFour(b1, qs);
    ReadableConcat(b, [ps[0]], qs);
    assert [ps[0]] + qs == ps;
  }

  lemma ReadsSoul(b: Condition, c: Condition)
    requires b.data.Soul? && c.data.Soul?
    ensures Readable(b, Props(c.data)) && ApplyAll(b, Props(c.data)) == b.(data := c.data)
  {
    hide Readable, ApplyAll;
    WordInverse(c.data.soulGain);
    WordInverse(c.data.soulTicks);
    ReadsTwo(b, Props(c.data)[0], Props(c.data)[1]);
  }

  lemma ReadsSimple(b: Condition, c: Condition)
    requires Fitting(c) && Blank(c.header.kind) == Some(b.data)
    requires !c.data.Damage? && !c.data.Attributes?
    ensures Readable(b, Props(c.data)) && ApplyAll(b, Props(c.data)) == b.(data := Restored(c).data)
  {
    hide Readable, ApplyAll;
    match c.data
    case Generic => NothingRead(b);
    case Drunk(_) => NothingRead(b);
    case Soul(_, _) => ReadsSoul(b, c);
    case Regeneration(_, _, _, _) => ReadsRegeneration(b, c);
    case Light(_, _, _, _) => ReadsLight(b, c);
    case Speed(_, _, _, _, _) => ReadsSpeed(b, c);
    case Outfit(_) => ReadsOne(b, Props(c.data)[0]);
  }

  lemma NothingRead(b: Condition)
    ensures Readable(b, []) && ApplyAll(b, []) == b
  {
  }

  /** A blank condition that reads the values written for another becomes that one. */
  lemma ReadsData(c: Condition)
    requires Fitting(c)
    ensures Created(c.header).Some? && var b := Created(c.header).value;
            Readable(b, Props(c.data)) && ApplyAll(b, Props(c.data)) == Restored(c)
  {
    hide Readable, ApplyAll, Props;
    var b := Created(c.header).value;
    if c.data.Damage? {
      ReadsDamage(b, c);
    } else if c.data.Attributes? {
      ReadsAttributes(b, c);
    } else {
      ReadsSimple(b, c);
    }
  }

  // ----- The head

  lemma IdInverse(i: Id)
    ensures IdOf(IdWord(i)) == i
  {
  }

  lemma ReadsTagged(s: seq<Byte>, i: nat, ps: seq<Prop>)
    requires ps != [] && At(s, i, Render(ps))
    ensures Tagged(s, i, ps[0].tag, |ps[0].payload|) == Some(ps[0].payload)
    ensures At(s, i + 1 + |ps[0].payload|, Render(ps[1..]))
  {
    AtFirstProp(s, i, ps);
  }

  lemma ReadsHeader(s: seq<Byte>, i: nat, h: Header)
    requires At(s, i, Render(HeaderProps(h)))
    ensures DecodeHeader(s, i) == Created(h)
  {
    hide At, Render, Tagged, Created, WordBytes;
    var ps := HeaderProps(h);
    ReadsTagged(s, i, ps);
    ReadsTagged(s, i + 5, ps[1..]);
    ReadsTagged(s, i + 10, ps[2..]);
    ReadsTagged(s, i + 15, ps[3..]);
    ReadsTagged(s, i + 17, ps[4..]);
    ReadsTagged(s, i + 22, ps[5..]);
    WordInverse(h.kind);
    WordInverse(IdWord(h.id));
    WordInverse(h.ticks);
    WordInverse(h.subId);
    IdInverse(h.id);
  }

  lemma HeaderSize(h: Header)
    ensures |Render(HeaderProps(h))| == HEADER_SIZE
  {
    hide WordBytes;
    var ps := HeaderProps(h);
    assert |Render(ps[6..])| == 0 && |Render(ps[5..])| == 2 && |Render(ps[4..])| == 7 && |Render(ps[3..])| == 9;
    assert |Render(ps[2..])| == 14 && |Render(ps[1..])| == 19 && ps[0..] == ps;
  }

  lemma ReadsCondition(s: seq<Byte>, i: nat, c: Condition)
    requires Fitting(c) && At(s, i, Encode(c))
    ensures i + |Encode(c)| <= |s| && DecodeHeader(s, i) == Created(c.header) && Created(c.header).Some?
    ensures DecodeProps(Created(c.header).value, s, i + HEADER_SIZE) == Read(true, Restored(c), i + |Encode(c)|)
  {
    assert i + |Encode(c)| <= |s|;
    hide At, Render, HeaderProps, Props, Created, Fitting, Readable, ApplyAll, Restored;
    AtParts(s, i, Render(HeaderProps(c.header)), Render(Props(c.data)) + [END]);
    HeaderSize(c.header);
    ReadsHeader(s, i, c.header);
    ReadsData(c);
    ReadsProps(s, i + HEADER_SIZE, Created(c.header).value, Props(c.data));
  }

  // ----- The whole list

  function AllRestored(cs: seq<Condition>): seq<Condition> {
    if cs == [] then [] else AllRestored(cs[1..]) + [Restored(cs[0])]
  }

  lemma {:induction false} LoadsAll(s: seq<Byte>, i: nat, cs: seq<Condition>, list: seq<Condition>)
    requires (forall c | c in cs :: Fitting(c)) && i <= |s| && At(s, i, EncodeAll(cs)) && i + |EncodeAll(cs)| == |s|
    ensures Load(s, i, list) == AllRestored(Persistent(cs)) + list
    decreases |cs|
  {
    hide At, Fitting, Restored, Encode, IsPersistent, Load;
    if cs == [] {
      LoadEnds(s, i, list);
      assert [] + list == list;
    } else if IsPersistent(cs[0]) {
      var c := cs[0];
      AtParts(s, i, Encode(c), EncodeAll(cs[1..]));
      LoadStep(s, i, c, list);
      LoadsAll(s, i + |Encode(c)|, cs[1..], [Restored(c)] + list);
      PersistentStep(cs);
      ListsJoin(AllRestored(Persistent(cs[1..])), Restored(c), list);
    } else {
      assert EncodeAll(cs) == EncodeAll(cs[1..]);
      LoadsAll(s, i, cs[1..], list);
      PersistentStep(cs);
    }
  }

  lemma ListsJoin(a: seq<Condition>, c: Condition, b: seq<Condition>)
    ensures a + ([c] + b) == a + [c] + b
  {
  }

  lemma PersistentStep(cs: seq<Condition>)
    requires cs != []
    ensures AllRestored(Persistent(cs)) ==
            AllRestored(Persistent(cs[1..])) + (if IsPersistent(cs[0]) then [Restored(cs[0])] else [])
  {
    hide IsPersistent, Restored;
    if IsPersistent(cs[0]) {
      assert Persistent(cs)[1..] == Persistent(cs[1..]);
    } else {
      assert Persistent(cs) == Persistent(cs[1..]);
    }
  }

  lemma LoadStep(s: seq<Byte>, i: nat, c: Condition, list: seq<Condition>)
    requires Fitting(c) && i <= |s| && At(s, i, Encode(c))
    ensures i + |Encode(c)| <= |s| && Load(s, i, list) == Load(s, i + |Encode(c)|, [Restored(c)] + list)
  {
    hide At, Fitting, Restored, Encode, DecodeHeader, DecodeProps, Created;
    ReadsCondition(s, i, c);
  }

  lemma LoadEnds(s: seq<Byte>, i: nat, list: seq<Condition>)
    requires i == |s|
    ensures Load(s, i, list) == list
  {
  }

  /** What was saved is loaded again: the persistent conditions, each restored, in reverse order. */
  lemma SaveAndLoad(cs: seq<Condition>)
    requires forall c | c in cs :: Fitting(c)
    ensures Load(EncodeAll(cs), 0, []) == AllRestored(Persistent(cs))
  {
    var s := EncodeAll(cs);
    assert s[0..|s|] == s;
    LoadsAll(s, 0, cs, []);
    assert AllRestored(Persistent(cs)) + [] == AllRestored(Persistent(cs));
  }

  lemma {:induction false} RestoredAt(cs: seq<Condition>, k: nat)
    requires k < |cs|
    ensures |AllRestored(cs)| == |cs| && AllRestored(cs)[|cs| - 1 - k] == Restored(cs[k])
  {
    if k > 0 {
      RestoredAt(cs[1..], k - 1);
    } else if |cs| > 1 {
      RestoredAt(cs[1..], 0);
    }
  }

  // ----- What does not come back

  /** The ticks of a condition that deals damage come back as the sum of its intervals, if that fits. */
  function Sum(rounds: seq<Round>): nat {
    if rounds == [] then 0 else rounds[0].interval + Sum(rounds[1..])
  }

  lemma {:induction false} TicksAreSum(ticks: Word, rounds: seq<Round>)
    requires ticks + Sum(rounds) < MINUS_ONE
    ensures SumTicks(ticks, rounds) == ticks + Sum(rounds)
    decreases |rounds|
  {
    if rounds != [] {
      TicksAreSum(AddTicks(ticks, rounds[0].interval), rounds[1..]);
    }
  }

  const FIRE: Word := 2

  /** One persistent condition through the stream. */
  lemma LoadsOne(c: Condition)
    requires Fitting(c) && IsPersistent(c)
    ensures Load(EncodeAll([c]), 0, []) == [Restored(c)]
  {
    hide Fitting, IsPersistent, Restored, Load, EncodeAll;
    SaveAndLoad([c]);
    PersistentStep([c]);
    assert [c][1..] == [] && Persistent([]) == [] && AllRestored([]) == [];
  }

  /**
   A condition is loaded as it was saved exactly if, for damage, its ticks are the intervals of all rounds together;
   for drunkenness, it is the usual one; for attributes, the counters stand at the end.
   */
  lemma UnchangedIff(c: Condition)
    requires Fitting(c) && IsPersistent(c) && (c.data.Damage? ==> Sum(c.data.rounds) < MINUS_ONE)
    ensures Load(EncodeAll([c]), 0, []) == [c] <==>
            && (c.data.Damage? ==> c.header.ticks == Sum(c.data.rounds))
            && (c.data.Drunk? ==> c.data.drunkenness == DRUNKENNESS)
            && (c.data.Attributes? ==>
                  && c.data.currentSkill == SKILL_COUNT && c.data.currentStat == STAT_COUNT
                  && c.data.currentSpecialSkill == SPECIALSKILL_COUNT)
  {
    hide Load, EncodeAll, IsPersistent;
    LoadsOne(c);
    if c.data.Damage? {
      TicksAreSum(0, c.data.rounds);
    }
  }

  /** Burning that has been felt for one second of its first two comes back with its four seconds. */
  lemma PartlyFeltComesBackLonger(value: Word)
    ensures var rounds := [Round(1000, value, 2000), Round(2000, value, 2000)];
            var c := Condition(Header(FIRE, ID_COMBAT, 3000, false, 0, true), Damage(false, 0, rounds));
            && Fitting(c) && IsPersistent(c)
            && Load(EncodeAll([c]), 0, []) == [c.(header := c.header.(ticks := 4000))] != [c]
  {
    hide Load, EncodeAll;
    var rounds := [Round(1000, value, 2000), Round(2000, value, 2000)];
    var c := Condition(Header(FIRE, ID_COMBAT, 3000, false, 0, true), Damage(false, 0, rounds));
    LoadsOne(c);
    assert rounds[1..] == [rounds[1]] && rounds[1..][1..] == [];
    assert SumTicks(0, rounds) == SumTicks(2000, rounds[1..]) == SumTicks(4000, rounds[1..][1..]);
  }
}
