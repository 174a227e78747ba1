/** How the conditions of a player are written to a stream of tagged values and read back. */
module ConditionFormat {
  import opened Options
  import opened Bytes

  // Tags of values.
  const TYPE: Byte := 1
  const ID: Byte := 2
  const TICKS: Byte := 3
  const HEALTHTICKS: Byte := 4
  const HEALTHGAIN: Byte := 5
  const MANATICKS: Byte := 6
  const MANAGAIN: Byte := 7
  const DELAYED: Byte := 8
  const OWNER: Byte := 9
  const INTERVALDATA: Byte := 10
  const SPEEDDELTA: Byte := 11
  const FORMULA_MINA: Byte := 12
  const FORMULA_MINB: Byte := 13
  const FORMULA_MAXA: Byte := 14
  const FORMULA_MAXB: Byte := 15
  const LIGHTCOLOR: Byte := 16
  const LIGHTLEVEL: Byte := 17
  const LIGHTTICKS: Byte := 18
  const LIGHTINTERVAL: Byte := 19
  const SOULTICKS: Byte := 20
  const SOULGAIN: Byte := 21
  const SKILLS: Byte := 22
  const STATS: Byte := 23
  const OUTFIT: Byte := 24
  const PERIODDAMAGE: Byte := 25
  const ISBUFF: Byte := 26
  const SUBID: Byte := 27
  const ISAGGRESSIVE: Byte := 28
  const DISABLEDEFENSE: Byte := 29
  const SPECIALSKILLS: Byte := 30
  const END: Byte := 254

  const SKILL_COUNT := 7
  const STAT_COUNT := 5
  const SPECIALSKILL_COUNT := 9
  const OUTFIT_SIZE := 16
  const DRUNKENNESS: Byte := 25

  /** The word that a negative one is written as. */
  const MINUS_ONE: Word := 0xFFFF_FFFF

  type Id = i: int | -128 <= i < 128

  function IdWord(i: Id): Word {
    if i < 0 then i + 0x1_0000_0000 else i
  }

  function IdOf(w: Word): Id {
    if w % 256 < 128 then w % 256 else w % 256 - 256
  }

  const ID_DEFAULT: Id := -1
  const ID_COMBAT: Id := 0
  const MUTED: Word := 0x1_0000

  datatype Round = Round(timeLeft: Word, value: Word, interval: Word)

  /** What every condition carries. */
  datatype Header = Header(kind: Word, id: Id, ticks: Word, buff: bool, subId: Word, aggressive: bool)

  /** What the different conditions carry besides; signed and floating-point values are kept as their 32 bits. */
  datatype Data =
    | Generic
    | Drunk(drunkenness: Byte)
    | Regeneration(healthTicks: Word, healthGain: Word, manaTicks: Word, manaGain: Word)
    | Soul(soulGain: Word, soulTicks: Word)
    | Damage(delayed: bool, periodDamage: Word, rounds: seq<Round>)
    | Speed(speedDelta: Word, mina: Word, minb: Word, maxa: Word, maxb: Word)
    | Attributes(skills: seq<Word>, stats: seq<Word>, disableDefense: bool, specialSkills: seq<Word>,
                 currentSkill: nat, currentStat: nat, currentSpecialSkill: nat)
    | Light(color: Byte, level: Byte, lightTicks: Word, lightInterval: Word)
    | Outfit(look: seq<Byte>)

  datatype Condition = Condition(header: Header, data: Data)

  /** The data a new condition of some type starts with; the type of no condition has none. */
  function Blank(kind: Word): Option<Data> {
    if kind in {1, 2, 4, 8, 0x8000, 0x10_0000, 0x20_0000, 0x40_0000} then Some(Damage(false, 0, []))
    else if kind in {0x10, 0x20} then Some(Speed(0, 0, 0, 0, 0))
    else if kind == 0x40 then Some(Outfit(Zeros(OUTFIT_SIZE)))
    else if kind == 0x100 then Some(Light(0, 0, 0, 0))
    else if kind == 0x800 then Some(Drunk(DRUNKENNESS))
    else if kind == 0x2000 then Some(Regeneration(1000, 0, 1000, 0))
    else if kind == 0x4000 then Some(Soul(0, 0))
    else if kind == 0x8_0000 then Some(Attributes(Zeros(SKILL_COUNT), Zeros(STAT_COUNT), false,
                                                  Zeros(SPECIALSKILL_COUNT), 0, 0, 0))
    else if kind in {0x80, 0x200, 0x400, 0x1000, 0x1_0000, 0x2_0000, 0x4_0000,
                     0x80_0000, 0x100_0000, 0x200_0000, 0x400_0000, 0x800_0000} then Some(Generic)
    else None
  }

  function Zeros(n: nat): (r: seq<Byte>)
    ensures |r| == n && forall i | 0 <= i < n :: r[i] == 0
  {
    seq(n, i => 0)
  }

  // ----- Writing

  /** One tagged value. */
  datatype Prop = Prop(tag: Byte, payload: seq<Byte>)

  function Flag(b: bool): seq<Byte> {
    [if b then 1 else 0]
  }

  function RoundBytes(r: Round): (bs: seq<Byte>)
    ensures |bs| == 12
  {
    WordBytes(r.timeLeft) + WordBytes(r.value) + WordBytes(r.interval)
  }

  function RoundOf(bs: seq<Byte>): Round
    requires |bs| == 12
  {
    Round(WordOf(bs[0..4]), WordOf(bs[4..8]), WordOf(bs[8..12]))
  }

  function RoundProps(rounds: seq<Round>): seq<Prop> {
    if rounds == [] then [] else [Prop(INTERVALDATA, RoundBytes(rounds[0]))] + RoundProps(rounds[1..])
  }

  function WordProps(tag: Byte, ws: seq<Word>): seq<Prop> {
    if ws == [] then [] else [Prop(tag, WordBytes(ws[0]))] + WordProps(tag, ws[1..])
  }

  function Props(d: Data): seq<Prop> {
    match d
    case Generic => []
    case Drunk(_) => []
    case Regeneration(ht, hg, mt, mg) =>
      [Prop(HEALTHTICKS, WordBytes(ht)), Prop(HEALTHGAIN, WordBytes(hg)), Prop(MANATICKS, WordBytes(mt)),
          Prop(MANAGAIN, WordBytes(mg))]
    case Soul(g, t) => [Prop(SOULGAIN, WordBytes(g)), Prop(SOULTICKS, WordBytes(t))]
    case Damage(delayed, period, rounds) =>
      [Prop(DELAYED, Flag(delayed)), Prop(PERIODDAMAGE, WordBytes(period))] + RoundProps(rounds)
    case Speed(delta, mina, minb, maxa, maxb) =>
      [Prop(SPEEDDELTA, WordBytes(delta)), Prop(FORMULA_MINA, WordBytes(mina)), Prop(FORMULA_MINB, WordBytes(minb)),
       Prop(FORMULA_MAXA, WordBytes(maxa)), Prop(FORMULA_MAXB, WordBytes(maxb))]
    case Attributes(skills, stats, disable, specials, _, _, _) =>
      WordProps(SKILLS, skills) + (WordProps(STATS, stats)
                                   + ([Prop(DISABLEDEFENSE, Flag(disable))] + WordProps(SPECIALSKILLS, specials)))
    case Light(color, level, ticks, interval) =>
      [Prop(LIGHTCOLOR, WordBytes(color)), Prop(LIGHTLEVEL, WordBytes(level)), Prop(LIGHTTICKS, WordBytes(ticks)),
       Prop(LIGHTINTERVAL, WordBytes(interval))]
    case Outfit(look) => [Prop(OUTFIT, look)]
  }

  function Render(ps: seq<Prop>): seq<Byte> {
    if ps == [] then [] else [ps[0].tag] + ps[0].payload + Render(ps[1..])
  }

  function HeaderProps(h: Header): seq<Prop> {
    [Prop(TYPE, WordBytes(h.kind)), Prop(ID, WordBytes(IdWord(h.id))), Prop(TICKS, WordBytes(h.ticks)),
     Prop(ISBUFF, Flag(h.buff)), Prop(SUBID, WordBytes(h.subId)), Prop(ISAGGRESSIVE, Flag(h.aggressive))]
  }

  function Encode(c: Condition): seq<Byte> {
    Render(HeaderProps(c.header)) + (Render(Props(c.data)) + [END])
  }

  /** How a regeneration lies in the stream: every value behind its tag. */
  lemma WritesRegeneration(h: Header, ht: Word, hg: Word, mt: Word, mg: Word)
    ensures Encode(Condition(h, Regeneration(ht, hg, mt, mg))) ==
            HeadBytes(h)
            + ((([4] + WordBytes(ht)) + (([5] + WordBytes(hg)) + (([6] + WordBytes(mt)) + ([7] + WordBytes(mg)))))
                + [254])
  {
    hide WordBytes, Render;
    WritesHead(h);
    RenderFour(Prop(HEALTHTICKS, WordBytes(ht)), Prop(HEALTHGAIN, WordBytes(hg)), Prop(MANATICKS, WordBytes(mt)),
               Prop(MANAGAIN, WordBytes(mg)));
  }

  function HeadBytes(h: Header): seq<Byte> {
    ([1] + WordBytes(h.kind))
    + (([2] + WordBytes(if h.id < 0 then h.id + 0x1_0000_0000 else h.id))
       + (([3] + WordBytes(h.ticks))
          + (([26] + [if h.buff then 1 else 0])
              + (([27] + WordBytes(h.subId)) + ([28] + [if h.aggressive then 1 else 0])))))
  }

  lemma WritesHead(h: Header)
    ensures Render(HeaderProps(h)) == HeadBytes(h)
  {
    hide WordBytes, Render;
    var head := HeaderProps(h);
    RenderFour(head[2], head[3], head[4], head[5]);
    OneMore(head[1], [head[2], head[3], head[4], head[5]]);
    OneMore(head[0], [head[1], head[2], head[3], head[4], head[5]]);
    assert [head[1]] + [head[2], head[3], head[4], head[5]] == [head[1], head[2], head[3], head[4], head[5]];
    assert [head[0]] + [head[1], head[2], head[3], head[4], head[5]] == head;
  }

  lemma RenderFour(a: Prop, b: Prop, c: Prop, d: Prop)
    ensures Render([a, b, c, d]) ==
            ([a.tag] + a.payload) + (([b.tag] + b.payload) + (([c.tag] + c.payload) + ([d.tag] + d.payload)))
  {
    OneLast(d);
    OneMore(c, [d]);
    OneMore(b, [c, d]);
    OneMore(a, [b, c, d]);
    hide Render;
    assert [c] + [d] == [c, d] && [b] + [c, d] == [b, c, d] && [a] + [b, c, d] == [a, b, c, d];
  }

  lemma OneLast(p: Prop)
    ensures Render([p]) == [p.tag] + p.payload
  {
    assert [p][1..] == [];
  }

  lemma OneMore(p: Prop, ps: seq<Prop>)
    ensures Render([p] + ps) == ([p.tag] + p.payload) + Render(ps)
  {
    assert ([p] + ps)[1..] == ps;
  }

  predicate IsPersistent(c: Condition) {
    c.header.ticks != MINUS_ONE && (c.header.id == ID_DEFAULT || c.header.id == ID_COMBAT || c.header.kind == MUTED)
  }

  function Persistent(cs: seq<Condition>): seq<Condition> {
    if cs == [] then [] else (if IsPersistent(cs[0]) then [cs[0]] else []) + Persistent(cs[1..])
  }

  function EncodeAll(cs: seq<Condition>): seq<Byte> {
    if cs == [] then [] else (if IsPersistent(cs[0]) then Encode(cs[0]) else []) + EncodeAll(cs[1..])
  }

  // ----- Reading

  /** How many bytes the value of a tag has for a condition, if it knows the tag. */
  function Width(d: Data, tag: Byte): Option<nat> {
    if d.Damage? && tag == DELAYED then Some(1)
    else if d.Damage? && (tag == PERIODDAMAGE || tag == OWNER) then Some(4)
    else if d.Damage? && tag == INTERVALDATA then Some(12)
    else if d.Regeneration? && tag in {HEALTHTICKS, HEALTHGAIN, MANATICKS, MANAGAIN} then Some(4)
    else if d.Soul? && tag in {SOULGAIN, SOULTICKS} then Some(4)
    else if d.Speed? && tag in {SPEEDDELTA, FORMULA_MINA, FORMULA_MINB, FORMULA_MAXA, FORMULA_MAXB} then Some(4)
    else if d.Attributes? && tag == SKILLS then (if d.currentSkill < |d.skills| then Some(4) else None)
    else if d.Attributes? && tag == STATS then (if d.currentStat < |d.stats| then Some(4) else None)
    else if d.Attributes? && tag == SPECIALSKILLS
        then (if d.currentSpecialSkill < |d.specialSkills| then Some(4) else None)
    else if d.Attributes? && tag == DISABLEDEFENSE then Some(1)
    else if d.Light? && tag in {LIGHTCOLOR, LIGHTLEVEL, LIGHTTICKS, LIGHTINTERVAL} then Some(4)
    else if d.Outfit? && tag == OUTFIT then Some(OUTFIT_SIZE)
    else if tag in {TYPE, ID, TICKS, SUBID} then Some(4)
    else if tag in {ISBUFF, ISAGGRESSIVE} then Some(1)
    else None
  }

  function AddTicks(ticks: Word, interval: Word): Word {
    if ticks == MINUS_ONE then ticks else (ticks + interval) % 0x1_0000_0000
  }

  /** A condition after it has read a value. */
  function Apply(c: Condition, p: Prop): Condition
    requires Width(c.data, p.tag) == Some(|p.payload|)
  {
    var d, h := c.data, c.header;
    if d.Damage? && p.tag == DELAYED then c.(data := d.(delayed := p.payload[0] != 0))
    else if d.Damage? && p.tag == PERIODDAMAGE then c.(data := d.(periodDamage := WordOf(p.payload)))
    else if d.Damage? && p.tag == OWNER then c
    else if d.Damage? && p.tag == INTERVALDATA then
      var r := RoundOf(p.payload);
      Condition(h.(ticks := AddTicks(h.ticks, r.interval)), d.(rounds := d.rounds + [r]))
    else if d.Regeneration? && p.tag == HEALTHTICKS then c.(data := d.(healthTicks := WordOf(p.payload)))
    else if d.Regeneration? && p.tag == HEALTHGAIN then c.(data := d.(healthGain := WordOf(p.payload)))
    else if d.Regeneration? && p.tag == MANATICKS then c.(data := d.(manaTicks := WordOf(p.payload)))
    else if d.Regeneration? && p.tag == MANAGAIN then c.(data := d.(manaGain := WordOf(p.payload)))
    else if d.Soul? && p.tag == SOULGAIN then c.(data := d.(soulGain := WordOf(p.payload)))
    else if d.Soul? && p.tag == SOULTICKS then c.(data := d.(soulTicks := WordOf(p.payload)))
    else if d.Speed? && p.tag == SPEEDDELTA then c.(data := d.(speedDelta := WordOf(p.payload)))
    else if d.Speed? && p.tag == FORMULA_MINA then c.(data := d.(mina := WordOf(p.payload)))
    else if d.Speed? && p.tag == FORMULA_MINB then c.(data := d.(minb := WordOf(p.payload)))
    else if d.Speed? && p.tag == FORMULA_MAXA then c.(data := d.(maxa := WordOf(p.payload)))
    else if d.Speed? && p.tag == FORMULA_MAXB then c.(data := d.(maxb := WordOf(p.payload)))
    else if d.Attributes? && p.tag == SKILLS then
      c.(data := d.(skills := d.skills[d.currentSkill := WordOf(p.payload)], currentSkill := d.currentSkill + 1))
    else if d.Attributes? && p.tag == STATS then
      c.(data := d.(stats := d.stats[d.currentStat := WordOf(p.payload)], currentStat := d.currentStat + 1))
    else if d.Attributes? && p.tag == SPECIALSKILLS then
      c.(data := d.(specialSkills := d.specialSkills[d.currentSpecialSkill := WordOf(p.payload)],
                    currentSpecialSkill := d.currentSpecialSkill + 1))
    else if d.Attributes? && p.tag == DISABLEDEFENSE then c.(data := d.(disableDefense := p.payload[0] != 0))
    else if d.Light? && p.tag == LIGHTCOLOR then c.(data := d.(color := WordOf(p.payload) % 256))
    else if d.Light? && p.tag == LIGHTLEVEL then c.(data := d.(level := WordOf(p.payload) % 256))
    else if d.Light? && p.tag == LIGHTTICKS then c.(data := d.(lightTicks := WordOf(p.payload)))
    else if d.Light? && p.tag == LIGHTINTERVAL then c.(data := d.(lightInterval := WordOf(p.payload)))
    else if d.Outfit? && p.tag == OUTFIT then c.(data := d.(look := p.payload))
    else c.(header := ApplyHeader(h, p))
  }

  function ApplyHeader(h: Header, p: Prop): Header
    requires p.tag in {TYPE, ID, TICKS, SUBID} ==> |p.payload| == 4
    requires p.tag in {ISBUFF, ISAGGRESSIVE} ==> |p.payload| == 1
  {
    if p.tag == TYPE then h.(kind := WordOf(p.payload))
    else if p.tag == ID then h.(id := IdOf(WordOf(p.payload)))
    else if p.tag == TICKS then h.(ticks := WordOf(p.payload))
    else if p.tag == SUBID then h.(subId := WordOf(p.payload))
    else if p.tag == ISBUFF then h.(buff := p.payload[0] != 0)
    else if p.tag == ISAGGRESSIVE then h.(aggressive := p.payload[0] != 0)
    else h
  }

  datatype Read = Read(ok: bool, condition: Condition, next: nat)

  /** Reads values up to the end mark or the end of the stream. */
  function DecodeProps(c: Condition, s: seq<Byte>, i: nat): (r: Read)
    requires i <= |s|
    ensures i <= r.next <= |s|
    decreases |s| - i
  {
    if i == |s| then Read(true, c, i)
    else if s[i] == END then Read(true, c, i + 1)
    else
      match Width(c.data, s[i])
      case None => Read(false, c, i + 1)
      case Some(w) =>
        if i + 1 + w > |s| then Read(false, c, i + 1)
        else DecodeProps(Apply(c, Prop(s[i], s[i + 1..i + 1 + w])), s, i + 1 + w)
  }

  /** A tag and a value of known size at a position. */
  function Tagged(s: seq<Byte>, i: nat, tag: Byte, size: nat): Option<seq<Byte>> {
    if i + 1 + size <= |s| && s[i] == tag then Some(s[i + 1..i + 1 + size]) else None
  }

  /** Reads the fixed head of a condition and makes a blank condition of it. */
  function DecodeHeader(s: seq<Byte>, i: nat): Option<Condition> {
    match Tagged(s, i, TYPE, 4)
    case None => None
    case Some(kind) => match Tagged(s, i + 5, ID, 4)
    case None => None
    case Some(id) => match Tagged(s, i + 10, TICKS, 4)
    case None => None
    case Some(ticks) => match Tagged(s, i + 15, ISBUFF, 1)
    case None => None
    case Some(buff) => match Tagged(s, i + 17, SUBID, 4)
    case None => None
    case Some(subId) => match Tagged(s, i + 22, ISAGGRESSIVE, 1)
    case None => None
    case Some(aggressive) =>
      Created(Header(WordOf(kind), IdOf(WordOf(id)), WordOf(ticks), buff[0] != 0, WordOf(subId), aggressive[0] != 0))
  }

  const HEADER_SIZE := 24

  /** A new condition; one that deals damage starts without ticks. */
  function Created(h: Header): Option<Condition> {
    match Blank(h.kind)
    case None => None
    case Some(d) => Some(Condition(if d.Damage? then h.(ticks := 0) else h, d))
  }

  /** Reads conditions as long as there is a head; each one read goes to the front. */
  function Load(s: seq<Byte>, i: nat, list: seq<Condition>): seq<Condition>
    requires i <= |s|
    decreases |s| - i
  {
    match DecodeHeader(s, i)
    case None => list
    case Some(c) =>
      var r := DecodeProps(c, s, i + HEADER_SIZE);
      Load(s, r.next, if r.ok then [r.condition] + list else list)
  }
}
