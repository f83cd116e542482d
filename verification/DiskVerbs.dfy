/**
 The operator verbs that edit a replica's flags and properties: forcing its disk
 state, and starting a migration onto it.
 */
module DiskVerbs {
  import opened Names
  import opened Placement
  import Survival

  const DISKLESS := "DISKLESS"
  const TIE_BREAKER := "TIE_BREAKER"
  const INACTIVE := "INACTIVE"
  const POOL := "StorPoolName"
  const MIGRATING_FROM := "BlockstorMigratingFrom"

  datatype Resource = Resource(
    flags: seq<string>, props: map<string, string>, inUse: bool, deleting: bool, volumes: seq<bool>)

  // The replica as the reconcilers see it.
  function Seen(r: Resource): Replica
  {
    Replica(DISKLESS in r.flags, TIE_BREAKER in r.flags, INACTIVE in r.flags, r.deleting, r.volumes,
            if MIGRATING_FROM in r.props then r.props[MIGRATING_FROM] else "")
  }

  function AllSeen(stored: map<string, Resource>): map<string, Replica>
  {
    map n | n in stored :: Seen(stored[n])
  }

  function Without(flags: seq<string>, flag: string): seq<string>
  {
    if flags == [] then []
    else if flags[0] == flag then Without(flags[1..], flag)
    else [flags[0]] + Without(flags[1..], flag)
  }

  function WithFlag(flags: seq<string>, flag: string, want: bool): seq<string>
  {
    if want then (if flag in flags then flags else flags + [flag]) else Without(flags, flag)
  }

  lemma {:induction false} WithoutKeeps(flags: seq<string>, flag: string, f: string)
    ensures f in Without(flags, flag) <==> f in flags && f != flag
    decreases |flags|
  {
    if flags != [] {
      WithoutKeeps(flags[1..], flag, f);
      assert flags == [flags[0]] + flags[1..];
    }
  }

  lemma {:induction false} WithoutAbsent(flags: seq<string>, flag: string)
    requires flag !in flags
    ensures Without(flags, flag) == flags
    decreases |flags|
  {
    if flags != [] {
      WithoutAbsent(flags[1..], flag);
      assert flags == [flags[0]] + flags[1..];
    }
  }

  lemma {:induction false} WithoutSnoc(flags: seq<string>, last: string, flag: string)
    ensures Without(flags + [last], flag) == Without(flags, flag) + if last == flag then [] else [last]
    decreases |flags|
  {
    var all := flags + [last];
    if flags == [] {
      assert all[1..] == [];
    } else {
      assert all[1..] == flags[1..] + [last];
      WithoutSnoc(flags[1..], last, flag);
    }
  }

  /** One flag is set or cleared; every other one keeps its state. */
  lemma FlagSet(flags: seq<string>, flag: string, want: bool, f: string)
    ensures f in WithFlag(flags, flag, want) <==> if f == flag then want else f in flags
    ensures (flag in flags) == want ==> WithFlag(flags, flag, want) == flags
    ensures want && flag !in flags ==> WithFlag(flags, flag, want) == flags + [flag]
  {
    WithoutKeeps(flags, flag, f);
    if flag !in flags {
      WithoutAbsent(flags, flag);
    }
  }

  // Both writers, and what the migration leaves behind

  /** Forcing a disk state always leaves a witness diskless. */
  lemma SetDisklessSound(n: string, r: Replica, diskless: bool)
    requires Survival.SoundReplica(n, r)
    ensures Survival.SoundReplica(n, Survival.SetDiskless(r, diskless))
    ensures Survival.SetDiskless(r, diskless)
            == r.(diskless := diskless, tieBreaker := if diskless then r.tieBreaker else false)
  {
  }

  /** A migration that is accepted leaves a witness diskless exactly when its
      target was none. */
  lemma MigrationSoundExactly(s: State, dst: string, src: string)
    requires Survival.Sound(s)
    requires src != dst && src != "" && src in s.replicas && !s.replicas[src].diskless
    ensures Survival.Sound(Survival.StartMigration(s, dst, src))
            <==> !(dst in s.replicas && s.replicas[dst].tieBreaker)
  {
    var t := Survival.StartMigration(s, dst, src);
    assert Survival.SoundReplica(dst, t.replicas[dst]) <==> !(dst in s.replicas && s.replicas[dst].tieBreaker);
  }

  class Client {
    var stored: map<string, Resource>

    constructor (initial: map<string, Resource>)
      ensures stored == initial
    {
      stored := initial;
    }

    static method SetFlag(flags: seq<string>, flag: string, want: bool) returns (r: seq<string>)
      ensures r == WithFlag(flags, flag, want)
    {
      if want && flag !in flags {
        return flags + [flag];
      }
      if want || flag !in flags {
        if !want {
          WithoutAbsent(flags, flag);
        }
        return flags;
      }
      r := [];
      for k := 0 to |flags|
        invariant r == Without(flags[..k], flag)
      {
        assert flags[..k + 1] == flags[..k] + [flags[k]];
        WithoutSnoc(flags[..k], flags[k], flag);
        if flags[k] != flag {
          r := r + [flags[k]];
        }
      }
      assert flags[..|flags|] == flags;
    }

    /** Record a property: a value given is there afterwards, one not given leaves what
        is set, and no other property changes. */
    static method StampProp(props: map<string, string>, key: string, value: string) returns (r: map<string, string>)
      ensures value != "" ==> key in r && r[key] == value
      ensures forall k | k in props && (k != key || value == "") :: k in r && r[k] == props[k]
      ensures forall k | k in r :: k in props || (k == key && value != "")
    {
      if value == "" {
        return props;
      }
      return props[key := value];
    }

    /** Force a replica's disk state. A promotion needs a pool: the one named, or the
        one the store resolves to, if any. */
    method SetDiskless(node: string, diskless: bool, pool: string, resolved: Option<string>) returns (ok: bool)
      modifies this
      ensures ok <==> node in old(stored) && (diskless || pool != "" || resolved.Some?)
      ensures ok ==> AllSeen(stored) == AllSeen(old(stored))[node := Survival.SetDiskless(Seen(old(stored)[node]), diskless)]
      ensures !ok ==> stored == old(stored)
      ensures ok ==> node in stored
      ensures ok ==> forall f | f !in [DISKLESS, TIE_BREAKER] ::
                       f in stored[node].flags <==> f in old(stored)[node].flags
    {
      var chosen := pool;
      if !diskless && pool == "" {
        if resolved.None? {
          return false;
        }
        chosen := resolved.value;
      }
      if node !in stored {
        return false;
      }
      var r := stored[node];
      var flags := SetFlag(r.flags, DISKLESS, diskless);
      var props := r.props;
      forall f ensures f in flags <==> if f == DISKLESS then diskless else f in r.flags {
        FlagSet(r.flags, DISKLESS, diskless, f);
      }
      if !diskless {
        ghost var before := flags;
        flags := SetFlag(flags, TIE_BREAKER, false);
        forall f ensures f in flags <==> f != TIE_BREAKER && f in before {
          FlagSet(before, TIE_BREAKER, false, f);
        }
        props := StampProp(props, POOL, chosen);
      }
      var edited := r.(flags := flags, props := props);
      assert Seen(edited) == Survival.SetDiskless(Seen(r), diskless);
      stored := stored[node := edited];
      return true;
    }

    /** Promote or create the target and name the source; the source stays. A new target
        needs a pool. */
    method MigrateDisk(dst: string, src: string, pool: string, resolved: Option<string>) returns (ok: bool)
      modifies this
      ensures ok <==> src != dst && src != "" && src in old(stored) && DISKLESS !in old(stored)[src].flags && !old(stored)[src].inUse
                      && (dst in old(stored) || pool != "" || resolved.Some?)
      ensures !ok ==> stored == old(stored)
      ensures ok ==> forall s: State | s.replicas == AllSeen(old(stored)) ::
                       AllSeen(stored) == Survival.StartMigration(s, dst, src).replicas
    {
      if src == dst || src == "" || src !in stored {
        return false;
      }
      if DISKLESS in stored[src].flags || stored[src].inUse {
        return false;
      }
      var r := Resource([], map[], false, false, []);
      var chosen := pool;
      if dst in stored {
        r := stored[dst];
      } else if pool == "" {
        if resolved.None? {
          return false;
        }
        chosen := resolved.value;
      }
      var props := StampProp(r.props, POOL, chosen);
      props := StampProp(props, MIGRATING_FROM, src);
      var flags := SetFlag(r.flags, DISKLESS, false);
      forall f ensures f in flags <==> f != DISKLESS && f in r.flags {
        FlagSet(r.flags, DISKLESS, false, f);
      }
      var edited := r.(flags := flags, props := props);
      assert Seen(edited) == Seen(r).(diskless := false, migratingFrom := src);
      stored := stored[dst := edited];
      return true;
    }
  }
}
