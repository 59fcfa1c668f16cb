/** The logger hierarchy (Foundation/src/Logger.cpp). Loggers form a tree by their dotted names, but each keeps a level and a
    channel of its own, copied from its nearest ancestor when it is created. */
module LoggerHierarchy {
  import opened Wrappers

  const ROOT := ""
  const PRIO_INFORMATION := 6

  /** What a logger inherits; channel 0 stands for the null channel. */
  datatype Setting = Setting(channel: nat, level: int)

  const DEFAULT := Setting(0, PRIO_INFORMATION)

  type Settings = map<string, Setting>

  /** name.rfind('.') */
  function LastDot(name: string): (pos: Option<nat>)
    ensures pos.Some? ==> pos.value < |name| && name[pos.value] == '.'
    ensures forall i :: (if pos.Some? then pos.value else -1) < i < |name| ==> name[i] != '.'
  {
    if name == "" then None
    else if name[|name| - 1] == '.' then Some(|name| - 1)
    else LastDot(name[..|name| - 1])
  }

  /** The name one level up. */
  function Up(name: string): (r: string)
    ensures |r| < |name| || r == name == ROOT
  {
    match LastDot(name)
    case Some(pos) => name[..pos]
    case None => ROOT
  }

  /** The setting of the nearest existing logger at or above a name; the root comes into being with the default. */
  function Nearest(m: Settings, name: string): Setting
    decreases |name|
  {
    if name in m then m[name] else if name == ROOT then DEFAULT else Nearest(m, Up(name))
  }

  ghost predicate HasAncestor(m: Settings, name: string)
    decreases |name|
  {
    Up(name) in m || (Up(name) != ROOT && HasAncestor(m, Up(name)))
  }

  /** The loggers once the parent of a name has been looked up. */
  ghost function Rooted(m: Settings, name: string): Settings {
    if HasAncestor(m, name) then m else m[ROOT := DEFAULT]
  }

  /** The loggers once a name has been asked for. */
  ghost function Got(m: Settings, name: string): Settings {
    if name in m then m
    else if name == ROOT then m[ROOT := DEFAULT]
    else Rooted(m, name)[name := Nearest(m, name)]
  }

  ghost function GotAll(m: Settings, names: seq<string>): Settings
    decreases |names|
  {
    if names == [] then m else GotAll(Got(m, names[0]), names[1..])
  }

  /** setLevel's test on a logger's name. */
  predicate AtOrBelow(p: string, name: string) {
    |p| == 0 || (|p| <= |name| && name[..|p|] == p && (|name| == |p| || name[|p|] == '.'))
  }

  ghost predicate OnWayUp(p: string, name: string)
    decreases |name|
  {
    p == name || (name != ROOT && OnWayUp(p, Up(name)))
  }

  ghost function Leveled(m: Settings, p: string, level: int): Settings {
    map n | n in m :: if AtOrBelow(p, n) then m[n].(level := level) else m[n]
  }

  ghost function Channeled(m: Settings, p: string, channel: nat): Settings {
    map n | n in m :: if AtOrBelow(p, n) then m[n].(channel := channel) else m[n]
  }

  class Logger {
    const name: string
    var channel: nat
    var level: int

    constructor (name: string, channel: nat, level: int)
      ensures this.name == name && this.channel == channel && this.level == level
    {
      this.name, this.channel, this.level := name, channel, level;
    }
  }

  /** The static part of class Logger. */
  class Registry {
    var loggers: map<string, Logger>

    /** Every logger is filed under its own name. */
    ghost predicate Valid()
      reads this
    {
      forall n :: n in loggers ==> loggers[n].name == n
    }

    ghost function Contents(): Settings
      reads this, loggers.Values
    {
      map n | n in loggers :: Setting(loggers[n].channel, loggers[n].level)
    }

    constructor ()
      ensures Valid() && Contents() == map[]
    {
      loggers := map[];
    }

    /** The logger of a name; a new one takes over the setting of its nearest ancestor. No existing logger changes. */
    method Get(name: string) returns (logger: Logger)
      requires Valid()
      modifies `loggers
      ensures Valid() && Contents() == Got(old(Contents()), name)
      ensures name in loggers && logger == loggers[name]
      ensures forall n :: n in old(loggers) ==> n in loggers && loggers[n] == old(loggers)[n]
      ensures forall n :: n in loggers && n !in old(loggers) ==> fresh(loggers[n])
      decreases if name == ROOT then 0 else 2, 0
    {
      if name in loggers { return loggers[name]; }
      if name == ROOT {
        logger := new Logger(name, 0, PRIO_INFORMATION);
      } else {
        var parent := Parent(name);
        assert Nearest(old(Contents()), name) == Nearest(old(Contents()), Up(name));
        hide Rooted, Nearest, Up;
        logger := new Logger(name, parent.channel, parent.level);
      }
      loggers := loggers[name := logger];
    }

    /** The nearest existing ancestor of a name; if there is none, the root is made. */
    method Parent(name: string) returns (logger: Logger)
      requires Valid()
      modifies `loggers
      ensures Valid() && Contents() == Rooted(old(Contents()), name)
      ensures logger in loggers.Values && Setting(logger.channel, logger.level) == Nearest(old(Contents()), Up(name))
      ensures forall n :: n in old(loggers) ==> n in loggers && loggers[n] == old(loggers)[n]
      ensures forall n :: n in loggers && n !in old(loggers) ==> fresh(loggers[n])
      decreases 1, |name|
    {
      var pos := LastDot(name);
      if pos.Some? {
        var pname := name[..pos.value];
        assert pname in loggers <==> pname in Contents();
        if pname in loggers { return loggers[pname]; }
        logger := Parent(pname);
      } else {
        logger := Get(ROOT);
        assert Contents()[ROOT] == Nearest(old(Contents()), ROOT);
      }
    }

    method SetLevel(name: string, level: int)
      requires Valid()
      modifies loggers.Values
      ensures Valid() && Contents() == Leveled(old(Contents()), name, level)
    {
      var rest := loggers.Keys;
      while rest != {}
        invariant rest <= loggers.Keys && Valid()
        invariant forall n :: n in loggers ==> loggers[n].channel == old(loggers[n].channel)
        invariant forall n :: n in loggers ==>
                    loggers[n].level == if n !in rest && AtOrBelow(name, n) then level else old(loggers[n].level)
      {
        var n :| n in rest;
        if AtOrBelow(name, n) { loggers[n].level := level; }
        rest := rest - {n};
      }
    }

    method SetChannel(name: string, channel: nat)
      requires Valid()
      modifies loggers.Values
      ensures Valid() && Contents() == Channeled(old(Contents()), name, channel)
    {
      var rest := loggers.Keys;
      while rest != {}
        invariant rest <= loggers.Keys && Valid()
        invariant forall n :: n in loggers ==> loggers[n].level == old(loggers[n].level)
        invariant forall n :: n in loggers ==>
                    loggers[n].channel == if n !in rest && AtOrBelow(name, n) then channel else old(loggers[n].channel)
      {
        var n :| n in rest;
        if AtOrBelow(name, n) { loggers[n].channel := channel; }
        rest := rest - {n};
      }
    }

    /** After the level of a name's loggers is set, any run of get calls. */
    method SetLevelThenGet(name: string, level: int, names: seq<string>)
      requires Valid()
      modifies this, loggers.Values
      ensures Valid() && Contents() == GotAll(Leveled(old(Contents()), name, level), names)
      ensures name in old(loggers) ==> forall n :: n in loggers && AtOrBelow(name, n) ==> loggers[n].level == level
    {
      ghost var m0 := Contents();
      SetLevel(name, level);
      ghost var m1 := Contents();
      for i := 0 to |names|
        invariant Valid() && GotAll(Contents(), names[i..]) == GotAll(m1, names)
      {
        assert names[i..][1..] == names[i + 1..];
        var _ := Get(names[i]);
      }
      if name in m0 {
        forall n | n in loggers && AtOrBelow(name, n) ensures loggers[n].level == level {
          assert Contents()[n].level == level by { LevelLasts(m0, name, level, names, n); }
        }
      }
    }
  }

  /** The name test of setLevel and setChannel holds for exactly the logger itself and those under it in the hierarchy. */
  lemma {:induction false} BelowIsOnWayUp(p: string, name: string)
    ensures AtOrBelow(p, name) <==> OnWayUp(p, name)
    decreases |name|
  {
    if name != ROOT {
      BelowIsOnWayUp(p, Up(name));
      BelowStep(p, name);
    }
  }

  lemma BelowStep(p: string, name: string)
    requires name != ROOT
    ensures AtOrBelow(p, name) <==> p == name || AtOrBelow(p, Up(name))
  {
    match LastDot(name)
    case Some(pos) =>
      if |p| <= pos { assert name[..pos][..|p|] == name[..|p|]; }
    case None =>
  }

  /** Asking for a logger changes no other logger and no name's inheritance. */
  lemma {:induction false} GetKeepsInheritance(m: Settings, name: string, q: string)
    ensures name in Got(m, name) && Got(m, name)[name] == Nearest(m, name)
    ensures forall n :: n in m ==> n in Got(m, name) && Got(m, name)[n] == m[n]
    ensures forall n :: n in Got(m, name) && n !in m ==> n == name || n == ROOT
    ensures Nearest(Got(m, name), q) == Nearest(m, q)
    decreases |q|
  {
    if name !in m && name != ROOT && !HasAncestor(m, name) { RootMissing(m, name); }
    if q !in m && q != ROOT { GetKeepsInheritance(m, name, Up(q)); }
  }

  lemma {:induction false} RootMissing(m: Settings, name: string)
    requires !HasAncestor(m, name)
    ensures ROOT !in m && (name !in m ==> Nearest(m, name) == DEFAULT)
    decreases |name|
  {
    if Up(name) != ROOT { RootMissing(m, Up(name)); }
  }

  /** After any run of get calls every logger has what its name inherited before the run, in whatever order they came. */
  lemma {:induction false} RunKeepsInheritance(m: Settings, names: seq<string>, q: string)
    ensures Nearest(GotAll(m, names), q) == Nearest(m, q)
    ensures q in GotAll(m, names) ==> GotAll(m, names)[q] == Nearest(m, q)
    ensures q in GotAll(m, names) <== q in m || q in names
    ensures q in GotAll(m, names) ==> q in m || q in names || q == ROOT
    decreases |names|
  {
    if names != [] {
      GetKeepsInheritance(m, names[0], q);
      RunKeepsInheritance(Got(m, names[0]), names[1..], q);
    }
  }

  /** The first loggers of all have no channel and the level of information, 6. */
  lemma {:induction false} NothingInherited(name: string)
    ensures Nearest(map[], name) == Setting(0, 6) && name in Got(map[], name) && Got(map[], name)[name] == Setting(0, 6)
    decreases |name|
  {
    if name != ROOT { NothingInherited(Up(name)); }
  }

  /** setLevel and setChannel reach each existing logger of the subtree, and change one thing only. */
  lemma SettingsReached(m: Settings, p: string, level: int, channel: nat, n: string)
    requires n in m
    ensures n in Leveled(m, p, level) && n in Channeled(m, p, channel)
    ensures OnWayUp(p, n) ==> Leveled(m, p, level)[n] == Setting(m[n].channel, level)
                              && Channeled(m, p, channel)[n] == Setting(channel, m[n].level)
    ensures !OnWayUp(p, n) ==> Leveled(m, p, level)[n] == m[n] == Channeled(m, p, channel)[n]
  {
    BelowIsOnWayUp(p, n);
  }

  /** What setChannel does to inheritance, in the way of setLevel. */
  lemma {:induction false} ChanneledInheritance(m: Settings, p: string, channel: nat, q: string)
    ensures var m' := Channeled(m, p, channel);
            Nearest(m', q).level == Nearest(m, q).level &&
            (!AtOrBelow(p, q) ==> Nearest(m', q) == Nearest(m, q)) &&
            (AtOrBelow(p, q) ==> Nearest(m', q).channel == channel || Nearest(m', q) == Nearest(m', p))
    decreases |q|
  {
    if q !in m && q != ROOT {
      BelowStep(p, q);
      ChanneledInheritance(m, p, channel, Up(q));
    }
  }

  /** What setLevel does to inheritance: nothing outside the named subtree; inside, the level is the new one unless the nearest
      logger is above the subtree. */
  lemma {:induction false} LeveledInheritance(m: Settings, p: string, level: int, q: string)
    ensures var m' := Leveled(m, p, level);
            Nearest(m', q).channel == Nearest(m, q).channel &&
            (!AtOrBelow(p, q) ==> Nearest(m', q) == Nearest(m, q)) &&
            (AtOrBelow(p, q) ==> Nearest(m', q).level == level || Nearest(m', q) == Nearest(m', p))
    decreases |q|
  {
    if q !in m && q != ROOT {
      BelowStep(p, q);
      LeveledInheritance(m, p, level, Up(q));
    }
  }

  /** setLevel reaches the loggers that get makes later exactly when the named logger exists, or already would be given that
      level. */
  lemma SetLevelLasts(m: Settings, p: string, level: int)
    ensures (forall names, q :: q in GotAll(Leveled(m, p, level), names) && AtOrBelow(p, q) ==>
                                  GotAll(Leveled(m, p, level), names)[q].level == level)
            <==> p in m || Nearest(m, p).level == level
  {
    var m' := Leveled(m, p, level);
    if p in m || Nearest(m, p).level == level {
      forall names, q | q in GotAll(m', names) && AtOrBelow(p, q) ensures GotAll(m', names)[q].level == level {
        LevelLasts(m, p, level, names, q);
      }
    } else {
      RunKeepsInheritance(m', [p], p);
      NearestAbove(m, p, level);
      assert AtOrBelow(p, p);
      assert p in GotAll(m', [p]);
    }
  }

  lemma NearestAbove(m: Settings, p: string, level: int)
    requires p !in m
    ensures Nearest(Leveled(m, p, level), p) == Nearest(m, p)
  {
    if p != ROOT {
      LeveledInheritance(m, p, level, Up(p));
    }
  }

  lemma LevelLasts(m: Settings, p: string, level: int, names: seq<string>, q: string)
    requires p in m || Nearest(m, p).level == level
    requires q in GotAll(Leveled(m, p, level), names) && AtOrBelow(p, q)
    ensures GotAll(Leveled(m, p, level), names)[q].level == level
  {
    RunKeepsInheritance(Leveled(m, p, level), names, q);
    LeveledInheritance(m, p, level, q);
    if p !in m { NearestAbove(m, p, level); }
  }
}
