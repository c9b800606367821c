/**
 * Mount options folded into flags. A flag word is the set of its one bits; the table of known options
 * is a parameter, because its constants belong to the operating system.
 */
module MountFlags {
  import Text

  /** A positive table entry sets its bits, any other clears them (zero has none). */
  datatype Change = Change(sets: bool, bits: set<nat>)

  type Known = map<string, Change>

  /** What an option says before its first '='. */
  function Key(option: string): string {
    option[..Text.IndexOf(option, '=')]
  }

  function Split(s: string): (parts: seq<string>)
    ensures parts != []
  {
    var n := Text.IndexOf(s, ',');
    if n == |s| then [s] else [s[..n]] + Split(s[n + 1..])
  }

  function Join(parts: seq<string>): string
    requires parts != []
  {
    if |parts| == 1 then parts[0] else parts[0] + "," + Join(parts[1..])
  }

  /** The parts are the comma-free stretches of the text, none lost. */
  lemma {:induction false} SplitParts(s: string)
    ensures Join(Split(s)) == s
    ensures forall part | part in Split(s) :: ',' !in part
  {
    var n := Text.IndexOf(s, ',');
    if n < |s| {
      SplitParts(s[n + 1..]);
      assert Split(s)[1..] == Split(s[n + 1..]);
      CutAt(s, n);
    }
  }

  lemma CutAt(s: string, n: nat)
    requires n < |s|
    ensures s == s[..n] + [s[n]] + s[n + 1..]
  {
  }

  predicate Mentions(known: Known, key: string, b: nat) {
    key in known && b in known[key].bits
  }

  function Updated(flags: set<nat>, change: Change): set<nat> {
    if change.sets then flags + change.bits else flags - change.bits
  }

  /** Some option mentions the bit, and the last one that does sets it. */
  ghost predicate LastSets(known: Known, parts: seq<string>, b: nat) {
    exists i | 0 <= i < |parts| ::
      && Mentions(known, Key(parts[i]), b) && known[Key(parts[i])].sets
      && forall j | i < j < |parts| :: !Mentions(known, Key(parts[j]), b)
  }

  /** An option decides the bits it mentions, whatever came before it, and no others. */
  lemma LastSetsSnoc(known: Known, parts: seq<string>, option: string, b: nat)
    ensures LastSets(known, parts + [option], b) <==>
            if Mentions(known, Key(option), b) then known[Key(option)].sets else LastSets(known, parts, b)
  {
    var all := parts + [option];
    assert all[|parts|] == option;
    if LastSets(known, all, b) {
      var i :| 0 <= i < |all| && Mentions(known, Key(all[i]), b) && known[Key(all[i])].sets
               && forall j | i < j < |all| :: !Mentions(known, Key(all[j]), b);
      if i < |parts| {
        assert forall j | i < j < |parts| :: all[j] == parts[j];
        assert all[i] == parts[i];
      }
    }
    if !Mentions(known, Key(option), b) && LastSets(known, parts, b) {
      var i :| 0 <= i < |parts| && Mentions(known, Key(parts[i]), b) && known[Key(parts[i])].sets
               && forall j | i < j < |parts| :: !Mentions(known, Key(parts[j]), b);
      assert all[i] == parts[i];
      assert forall j | i < j < |parts| :: all[j] == parts[j];
    }
    if Mentions(known, Key(option), b) && known[Key(option)].sets {
      assert Mentions(known, Key(all[|parts|]), b);
    }
  }

  /** In a list the last mention wins; a lone option is looked up whole. */
  method MountPointFlags(known: Known, options: string) returns (flags: set<nat>)
    ensures ',' in options ==> forall b :: b in flags <==> LastSets(known, Split(options), b)
    ensures ',' !in options ==> forall b :: b in flags <==> Mentions(known, options, b) && known[options].sets
  {
    flags := {};
    if ',' in options {
      var parts := Split(options);
      for i := 0 to |parts|
        invariant forall b :: b in flags <==> LastSets(known, parts[..i], b)
      {
        var key := Key(parts[i]);
        ghost var before := flags;
        if key in known {
          flags := Updated(flags, known[key]);
        }
        assert parts[..i + 1] == parts[..i] + [parts[i]];
        forall b: nat ensures b in flags <==> LastSets(known, parts[..i + 1], b) {
          LastSetsSnoc(known, parts[..i], parts[i], b);
        }
      }
      assert parts[..|parts|] == parts;
      return;
    }
    if options in known {
      flags := Updated(flags, known[options]);
    }
  }

  /** The lone look-up agrees with the list of one unless an '=' hides an option that sets something. */
  lemma LoneOptionExactly(known: Known, option: string)
    requires forall key | key in known :: '=' !in key
    ensures (forall b: nat :: LastSets(known, [option], b) <==> Mentions(known, option, b) && known[option].sets) <==>
            '=' !in option || Key(option) !in known || !known[Key(option)].sets || known[Key(option)].bits == {}
  {
    forall b: nat ensures LastSets(known, [option], b) <==> Mentions(known, Key(option), b) && known[Key(option)].sets {
      LastSetsSnoc(known, [], option, b);
      assert [] + [option] == [option];
    }
    if '=' !in option {
      assert Key(option) == option;
    } else if Key(option) in known && known[Key(option)].sets && known[Key(option)].bits != {} {
      var b :| b in known[Key(option)].bits;
      assert LastSets(known, [option], b);
    }
  }
}
