/** The main worktree's database overlay and the validator that must agree with
    it (internal/config/main_worktree_overlay.go, internal/config/validate.go). */
module MainOverlay {
  import opened Prelude

  datatype TestClones = TestClones(clones: int, nameTemplate: string)

  datatype Database = Database(
    engine: string, nameTemplate: string, keyPrefix: string,
    testClones: Option<TestClones>, fanout: int, branchScoped: bool)

  /** An empty string or None inherits the base field. */
  datatype Overlay = Overlay(
    nameTemplate: string, keyPrefix: string, testClones: Option<TestClones>, fanout: Option<int>)

  const NO_OVERLAY := Overlay("", "", None, None)

  function Overlaid(d: Database, ov: Overlay): Database {
    Database(
      d.engine,
      if ov.nameTemplate != "" then ov.nameTemplate else d.nameTemplate,
      if ov.keyPrefix != "" then ov.keyPrefix else d.keyPrefix,
      if ov.testClones.Some? then ov.testClones else d.testClones,
      if ov.fanout.Some? then ov.fanout.value else d.fanout,
      d.branchScoped)
  }

  function OverlayAt(overlay: seq<Overlay>, i: nat): Overlay {
    if i < |overlay| then overlay[i] else NO_OVERLAY
  }

  /** The databases as the main worktree sees them. */
  function OverlaidAll(dbs: seq<Database>, overlay: seq<Overlay>): seq<Database> {
    seq(|dbs|, i requires 0 <= i < |dbs| => Overlaid(dbs[i], OverlayAt(overlay, i)))
  }

  class Config {
    var databases: array<Database>
    var overlay: seq<Overlay>
    var mainEnabled: bool

    constructor (databases: array<Database>, overlay: seq<Overlay>, mainEnabled: bool)
      ensures this.databases == databases && this.overlay == overlay && this.mainEnabled == mainEnabled
    {
      this.databases, this.overlay, this.mainEnabled := databases, overlay, mainEnabled;
    }

    /** ApplyMainWorktreeOverlay: the result lives in a fresh array, so a cached
        config that shares the old one keeps its values. */
    method ApplyOverlay()
      modifies this`databases
      ensures if |overlay| == 0 || old(databases).Length == 0 then databases == old(databases) else fresh(databases)
      ensures databases[..] == OverlaidAll(old(databases[..]), overlay)
      ensures old(databases)[..] == old(databases[..])
    {
      ghost var base := databases[..];
      if |overlay| == 0 || databases.Length == 0 {
        assert forall i :: 0 <= i < |base| ==> OverlaidAll(base, overlay)[i] == base[i];
        return;
      }
      var dbs := databases;
      var out := new Database[dbs.Length](i requires 0 <= i < dbs.Length reads dbs => dbs[i]);
      var i := 0;
      while i < |overlay| && i < out.Length
        invariant 0 <= i <= |overlay| && i <= out.Length == |base|
        invariant databases == dbs && dbs[..] == base && out != dbs
        invariant forall j :: 0 <= j < i ==> out[j] == Overlaid(base[j], overlay[j])
        invariant forall j :: i <= j < out.Length ==> out[j] == base[j]
      {
        var ov, d := overlay[i], out[i];
        if ov.nameTemplate != "" {
          d := d.(nameTemplate := ov.nameTemplate);
        }
        if ov.keyPrefix != "" {
          d := d.(keyPrefix := ov.keyPrefix);
        }
        if ov.testClones.Some? {
          d := d.(testClones := ov.testClones);
        }
        if ov.fanout.Some? {
          d := d.(fanout := ov.fanout.value);
        }
        out[i] := d;
        i := i + 1;
      }
      assert forall j :: 0 <= j < |base| ==> out[j] == OverlaidAll(base, overlay)[j];
      databases := out;
    }
  }

  // -------------------------------------------------------------- the validator

  /** mainActiveTemplate; `prefixScoped` tells the engines scoped by key prefix. */
  function MainActiveTemplate(dbs: seq<Database>, overlay: seq<Overlay>, i: nat, prefixScoped: string -> bool): string
    requires i < |dbs|
  {
    var ov := if i < |overlay| then overlay[i] else NO_OVERLAY;
    if prefixScoped(dbs[i].engine) then (if ov.keyPrefix != "" then ov.keyPrefix else dbs[i].keyPrefix)
    else if ov.nameTemplate != "" then ov.nameTemplate
    else dbs[i].nameTemplate
  }

  /** The namespace template a database really uses. */
  function ActiveTemplate(d: Database, prefixScoped: string -> bool): string {
    if prefixScoped(d.engine) then d.keyPrefix else d.nameTemplate
  }

  predicate Mentions(s: string, word: string) {
    exists k :: 0 <= k <= |s| && word <= s[k..]
  }

  /** Validate's branch_scoped check, as the indexes it complains about. */
  method MainTemplateErrors(dbs: seq<Database>, overlay: seq<Overlay>, mainEnabled: bool, prefixScoped: string -> bool)
    returns (errs: seq<int>)
    ensures forall i :: i in errs <==>
              0 <= i < |dbs| && mainEnabled && dbs[i].branchScoped
              && Mentions(MainActiveTemplate(dbs, overlay, i, prefixScoped), "{slug")
  {
    errs := [];
    if mainEnabled {
      for i := 0 to |dbs|
        invariant forall j :: j in errs <==>
                    0 <= j < i && dbs[j].branchScoped && Mentions(MainActiveTemplate(dbs, overlay, j, prefixScoped), "{slug")
      {
        if !dbs[i].branchScoped {
          continue;
        }
        if Mentions(MainActiveTemplate(dbs, overlay, i, prefixScoped), "{slug") {
          errs := errs + [i];
        }
      }
    }
  }

  /** What the validator looks at is what the overlay leaves behind. */
  lemma ValidatorAgrees(dbs: seq<Database>, overlay: seq<Overlay>, i: nat, prefixScoped: string -> bool)
    requires i < |dbs|
    ensures MainActiveTemplate(dbs, overlay, i, prefixScoped)
         == ActiveTemplate(OverlaidAll(dbs, overlay)[i], prefixScoped)
    ensures var d := OverlaidAll(dbs, overlay)[i];
            MainActiveTemplate(dbs, overlay, i, prefixScoped)
            == if prefixScoped(d.engine) then d.keyPrefix else d.nameTemplate
  {
    assert OverlaidAll(dbs, overlay)[i] == Overlaid(dbs[i], OverlayAt(overlay, i));
  }

  /** Field by field: what the overlay sets replaces the base value, what it leaves
      unset inherits it, and nothing else changes; databases past its end are as they
      were. */
  lemma OverlaidFields(dbs: seq<Database>, overlay: seq<Overlay>, i: nat)
    requires i < |dbs|
    ensures |OverlaidAll(dbs, overlay)| == |dbs|
    ensures var d, base := OverlaidAll(dbs, overlay)[i], dbs[i];
            if i >= |overlay| then d == base
            else
              var ov := overlay[i];
              && (ov.nameTemplate != "" ==> d.nameTemplate == ov.nameTemplate)
              && (ov.nameTemplate == "" ==> d.nameTemplate == base.nameTemplate)
              && (ov.keyPrefix != "" ==> d.keyPrefix == ov.keyPrefix)
              && (ov.keyPrefix == "" ==> d.keyPrefix == base.keyPrefix)
              && (ov.testClones.Some? ==> d.testClones == ov.testClones)
              && (ov.testClones.None? ==> d.testClones == base.testClones)
              && (ov.fanout.Some? ==> d.fanout == ov.fanout.value)
              && (ov.fanout.None? ==> d.fanout == base.fanout)
              && d.engine == base.engine && d.branchScoped == base.branchScoped
  {
  }

  /** Applying the overlay again changes nothing. */
  lemma OverlayIsIdempotent(dbs: seq<Database>, overlay: seq<Overlay>)
    ensures OverlaidAll(OverlaidAll(dbs, overlay), overlay) == OverlaidAll(dbs, overlay)
  {
    var once := OverlaidAll(dbs, overlay);
    forall i | 0 <= i < |dbs| ensures OverlaidAll(once, overlay)[i] == once[i] {
      assert once[i] == Overlaid(dbs[i], OverlayAt(overlay, i));
    }
  }

  /** With the main worktree enabled the validator accepts exactly the configs in
      which every branch-scoped database ends up with a slug-free namespace. */
  lemma AcceptedExactlyWhenSlugFree(dbs: seq<Database>, overlay: seq<Overlay>, prefixScoped: string -> bool)
    ensures (forall i :: 0 <= i < |dbs| && dbs[i].branchScoped ==>
               !Mentions(MainActiveTemplate(dbs, overlay, i, prefixScoped), "{slug"))
       <==> (forall d :: d in OverlaidAll(dbs, overlay) && d.branchScoped ==>
               !Mentions(ActiveTemplate(d, prefixScoped), "{slug"))
  {
    var after := OverlaidAll(dbs, overlay);
    forall i | 0 <= i < |dbs|
      ensures after[i].branchScoped == dbs[i].branchScoped && after[i] in after
      ensures MainActiveTemplate(dbs, overlay, i, prefixScoped) == ActiveTemplate(after[i], prefixScoped)
    {
      ValidatorAgrees(dbs, overlay, i, prefixScoped);
    }
  }
}
