// An accepted channel assignment fills the block of every direction exactly.
module ChannelBlocks {
  import opened Sequences
  import opened Wrappers
  import opened ChannelCosts
  import opened ChannelCertificates
  import Certificates

  /** The TDM groups of a direction. */
  ghost function GroupsOf(groups: seq<Group>, direction: nat): set<nat> {
    set l: nat | l < |groups| && groups[l].kind == 0 && groups[l].direction == direction
  }

  lemma {:induction false} DirectedCounts(groups: seq<Group>, direction: nat)
    ensures |GroupsOf(groups, direction)| == Directed(groups, direction)
  {
    if groups != [] {
      var last := |groups| - 1;
      DirectedCounts(groups[..last], direction);
      var before := GroupsOf(groups[..last], direction);
      assert GroupsOf(groups, direction) == before + if groups[last].kind == 0
             && groups[last].direction == direction then {last} else {};
    } else {
      assert GroupsOf(groups, direction) == {};
    }
  }

  /** The channels of a direction's block. */
  function BlockStart(bank: Bank, direction: nat): nat
    requires bank.priority <= 1
  {
    if direction == bank.priority then 0
    else if direction == 1 - bank.priority then CountOf(Counts(bank), bank.priority)
    else Counts(bank).0 + Counts(bank).1
  }

  ghost function Range(from: nat, count: nat): (range: set<int>)
    ensures |range| == count && forall r :: r in range <==> from <= r < from + count
  {
    if count == 0 then {} else Range(from, count - 1) + {from + count - 1}
  }

  ghost function Block(bank: Bank, direction: nat): set<int>
    requires bank.priority <= 1
  {
    Range(BlockStart(bank, direction), CountOf(Counts(bank), direction))
  }

  ghost function Rights(claims: Claims, lefts: set<nat>): set<int> {
    set l | l in lefts && l in claims :: claims[l].right
  }

  lemma {:induction false} RightsCount(claims: Claims, lefts: set<nat>)
    requires Injective(claims) && lefts <= claims.Keys
    ensures |Rights(claims, lefts)| == |lefts|
  {
    if lefts != {} {
      var l :| l in lefts;
      RightsCount(claims, lefts - {l});
      assert Rights(claims, lefts) == Rights(claims, lefts - {l}) + {claims[l].right};
    }
  }

  lemma EligibleInBlock(bank: Bank, g: Group, r: nat, direction: nat)
    requires bank.Valid() && direction <= 2 && g.kind == 0 && g.direction == direction
    requires Dedicated(Counts(bank), Common(bank.groups)).None? && Eligible(bank, g, r)
    ensures r in Block(bank, direction)
  {
  }

  /** In an accepted assignment of a bank that is not dedicated to one direction, the groups of each
      direction take every channel of its block and no other. */
  lemma BlockExactlyFilled(bank: Bank, claims: Claims, potentials: seq<int>, total: int, direction: nat)
    requires bank.Valid() && Compressed(bank, claims, potentials, total) && direction <= 2
    requires Dedicated(Counts(bank), Common(bank.groups)).None?
    ensures Rights(claims, GroupsOf(bank.groups, direction)) == Block(bank, direction)
  {
    var lefts := GroupsOf(bank.groups, direction);
    forall l | l in lefts ensures l in claims && claims[l].right in Block(bank, direction) {
      assert ClaimHolds(bank, claims, potentials, l);
      EligibleInBlock(bank, bank.groups[l], claims[l].right, direction);
    }
    CompressedIsInjective(bank, claims, potentials, total);
    RightsCount(claims, lefts);
    DirectedCounts(bank.groups, direction);
    SubsetSize(Rights(claims, lefts), Block(bank, direction));
  }

  lemma CompressedIsInjective(bank: Bank, claims: Claims, potentials: seq<int>, total: int)
    requires bank.Valid() && Compressed(bank, claims, potentials, total)
    ensures Injective(claims)
  {
    forall l: nat | l < |bank.groups| ensures 0 <= claims[l].right < |bank.channels| {
      assert ClaimHolds(bank, claims, potentials, l);
    }
    forall r: nat | r < |bank.channels| ensures Certificates.Uses(claims, |bank.groups|, r) <= 1 {
      assert ChannelHolds(bank, claims, potentials, r);
    }
    SingleUse(bank, claims);
  }
}
