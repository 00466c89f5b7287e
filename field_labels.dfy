/** The CMS bootstrap step that gives the admin panel readable field labels:
    for each content type it relabels the fields whose label is still the
    default one and stores the configuration only when something changed. */
module FieldLabels {
  import opened Text

  /** The `edit` or `list` part of a field's metadata: its label (`caption`) and the
      other settings, which relabelling copies unchanged. */
  datatype Section = Section(caption: Option<string>, rest: map<string, string>)

  /** One field's metadata: `edit`, `list` and the other keys. */
  datatype FieldMeta = FieldMeta(edit: Option<Section>, list: Option<Section>, rest: map<string, string>)

  type Metadatas = map<string, FieldMeta>

  /** A content type's wanted labels, field name to label, in the order of
      its object literal. */
  type Labels = seq<(string, string)>

  /** `labelConfigs`: the wanted labels of each content type. */
  const LabelConfigs: seq<(string, Labels)> := [
    ("api::blog-post.blog-post", [
      ("title", "Title"), ("description", "Description"), ("slug", "URL Slug"),
      ("date", "Publish Date"), ("lang", "Language"), ("featuredImage", "Featured Image"),
      ("ogImageUrl", "OG Image URL"), ("content", "Content"), ("createdAt", "Created At"),
      ("updatedAt", "Updated At"), ("publishedAt", "Published At")]),
    ("api::press-item.press-item", [
      ("title", "Title"), ("description", "Description"), ("publishDate", "Publish Date"),
      ("slug", "URL Slug"), ("publication", "Publication Name"),
      ("publicationLogo", "Publication Logo URL"), ("externalUrl", "External URL"),
      ("content", "Content"), ("featured", "Featured"), ("category", "Category"),
      ("createdAt", "Created At"), ("updatedAt", "Updated At"), ("publishedAt", "Published At")]),
    ("api::grant-track.grant-track", [
      ("name", "Grant Name"), ("amount", "Grant Amount"), ("description", "Description"),
      ("order", "Display Order"), ("createdAt", "Created At"), ("updatedAt", "Updated At"),
      ("publishedAt", "Published At")]),
    ("api::info-item.info-item", [
      ("title", "Title"), ("content", "Content"), ("order", "Display Order"),
      ("createdAt", "Created At"), ("updatedAt", "Updated At"), ("publishedAt", "Published At")]),
    ("api::financial-services-page.financial-services-page", [
      ("heroTitle", "Hero Title"), ("heroDescription", "Hero Description"),
      ("programOverview", "Program Overview"), ("applicationNotice", "Application Notice"),
      ("ctaTitle", "CTA Title"), ("ctaDescription", "CTA Description"),
      ("ctaEmailLabel", "Email Button Label"), ("ctaSubscribeLabel", "Subscribe Button Label"),
      ("createdAt", "Created At"), ("updatedAt", "Updated At"), ("publishedAt", "Published At")])
  ]

  // ---------------------------------------------------------------------
  // One field

  /** `metadatas[field]?.edit?.label`. */
  function EditLabel(m: FieldMeta): Option<string> {
    if m.edit.Some? then m.edit.value.caption else None
  }

  /** `isDefaultLabel`: no label, an empty one, or the field name up to
      case. */
  predicate IsDefaultLabel(current: Option<string>, fieldName: string) {
    current.None? || current.value == "" || current.value == fieldName
    || Lower(current.value) == Lower(fieldName)
  }

  /** A field is relabelled when its label is a default one and differs from
      the wanted label. */
  predicate NeedsRelabel(m: FieldMeta, fieldName: string, wanted: string) {
    IsDefaultLabel(EditLabel(m), fieldName) && EditLabel(m) != Some(wanted)
  }

  /** `{ ...section, label }`. */
  function WithLabel(s: Option<Section>, wanted: string): Section {
    Section(Some(wanted), if s.Some? then s.value.rest else map[])
  }

  /** The relabelled metadata: both labels set, every other setting kept. */
  function Relabelled(m: FieldMeta, wanted: string): (r: FieldMeta)
    ensures EditLabel(r) == Some(wanted) && r.list.Some? && r.list.value.caption == Some(wanted)
    ensures m.edit.Some? ==> r.edit.value.rest == m.edit.value.rest
    ensures m.list.Some? ==> r.list.value.rest == m.list.value.rest
    ensures r.rest == m.rest
  {
    FieldMeta(Some(WithLabel(m.edit, wanted)), Some(WithLabel(m.list, wanted)), m.rest)
  }

  /** One turn of the inner loop. */
  function Step(metas: Metadatas, entry: (string, string)): (r: Metadatas)
    ensures r.Keys == metas.Keys
  {
    var (f, wanted) := entry;
    if f in metas && NeedsRelabel(metas[f], f, wanted) then metas[f := Relabelled(metas[f], wanted)]
    else metas
  }

  /** The metadata after the inner loop over `labels`. */
  function RelabelAll(metas: Metadatas, labels: Labels): (r: Metadatas)
    ensures r.Keys == metas.Keys
    decreases |labels|
  {
    if |labels| == 0 then metas
    else Step(RelabelAll(metas, labels[..|labels| - 1]), labels[|labels| - 1])
  }

  /** `needsUpdate` after the inner loop over `labels`. */
  predicate AnyRelabel(metas: Metadatas, labels: Labels)
    decreases |labels|
  {
    |labels| > 0 &&
      var before := RelabelAll(metas, labels[..|labels| - 1]);
      var (f, wanted) := labels[|labels| - 1];
      AnyRelabel(metas, labels[..|labels| - 1]) || (f in before && NeedsRelabel(before[f], f, wanted))
  }

  /** The inner loop of `configureFieldLabels` over a copy of the stored
      metadata. */
  method RelabelFields(metadatas: Metadatas, labels: Labels) returns (updated: Metadatas, needsUpdate: bool)
    ensures updated == RelabelAll(metadatas, labels)
    ensures needsUpdate == AnyRelabel(metadatas, labels)
  {
    updated := metadatas;
    needsUpdate := false;
    var i := 0;
    while i < |labels|
      invariant 0 <= i <= |labels|
      invariant updated == RelabelAll(metadatas, labels[..i])
      invariant needsUpdate == AnyRelabel(metadatas, labels[..i])
    {
      var (fieldName, wanted) := labels[i];
      assert labels[..i + 1][..i] == labels[..i];
      if fieldName in updated {
        var current := EditLabel(updated[fieldName]);
        var isDefault := current.None? || current.value == "" || current.value == fieldName
          || Lower(current.value) == Lower(fieldName);
        if isDefault && current != Some(wanted) {
          updated := updated[fieldName := Relabelled(updated[fieldName], wanted)];
          needsUpdate := true;
        }
      }
      i := i + 1;
    }
    assert labels[..i] == labels;
  }

  // ---------------------------------------------------------------------
  // What the inner loop does, field by field

  predicate DistinctKeys(labels: Labels) {
    forall i, j :: 0 <= i < j < |labels| ==> labels[i].0 != labels[j].0
  }

  function KeysOf(labels: Labels): set<string> {
    set i | 0 <= i < |labels| :: labels[i].0
  }

  /** Fields the labels do not name are left as they are. */
  lemma {:induction false} RelabelAllOutside(metas: Metadatas, labels: Labels, f: string)
    requires f !in KeysOf(labels)
    ensures f in metas ==> RelabelAll(metas, labels)[f] == metas[f]
    decreases |labels|
  {
    if |labels| > 0 {
      var prefix := labels[..|labels| - 1];
      assert KeysOf(prefix) <= KeysOf(labels) by {
        forall k | k in KeysOf(prefix) ensures k in KeysOf(labels) {
          var i :| 0 <= i < |prefix| && prefix[i].0 == k;
          assert labels[i].0 == k;
        }
      }
      RelabelAllOutside(metas, prefix, f);
      assert labels[|labels| - 1].0 in KeysOf(labels);
    }
  }

  lemma LastKeyFresh(labels: Labels)
    requires DistinctKeys(labels) && |labels| > 0
    ensures labels[|labels| - 1].0 !in KeysOf(labels[..|labels| - 1])
  {
    var n := |labels| - 1;
    forall j | 0 <= j < n ensures labels[..n][j].0 != labels[n].0 {
      assert labels[..n][j] == labels[j];
    }
  }

  /** With distinct field names, the field named at `i` ends up relabelled
      exactly when its stored metadata needed it. */
  lemma {:induction false} RelabelAllAt(metas: Metadatas, labels: Labels, i: int)
    requires DistinctKeys(labels) && 0 <= i < |labels| && labels[i].0 in metas
    ensures var (f, wanted) := labels[i];
      RelabelAll(metas, labels)[f] ==
        if NeedsRelabel(metas[f], f, wanted) then Relabelled(metas[f], wanted) else metas[f]
    decreases |labels|
  {
    var prefix := labels[..|labels| - 1];
    var f := labels[i].0;
    assert DistinctKeys(prefix);
    if i == |labels| - 1 {
      LastKeyFresh(labels);
      RelabelAllOutside(metas, prefix, f);
    } else {
      RelabelAllAt(metas, prefix, i);
      assert prefix[i] == labels[i];
      assert labels[|labels| - 1].0 != f;
    }
  }

  /** With distinct field names, an update is needed iff some named field
      present in the stored metadata needs relabelling. */
  lemma {:induction false} AnyRelabelIff(metas: Metadatas, labels: Labels)
    requires DistinctKeys(labels)
    ensures AnyRelabel(metas, labels) <==>
      exists i :: 0 <= i < |labels| && labels[i].0 in metas && NeedsRelabel(metas[labels[i].0], labels[i].0, labels[i].1)
    decreases |labels|
  {
    if |labels| > 0 {
      var n := |labels| - 1;
      var prefix := labels[..n];
      assert DistinctKeys(prefix);
      AnyRelabelIff(metas, prefix);
      var f := labels[n].0;
      LastKeyFresh(labels);
      RelabelAllOutside(metas, prefix, f);
      if AnyRelabel(metas, labels) {
        if AnyRelabel(metas, prefix) {
          var i :| 0 <= i < |prefix| && prefix[i].0 in metas && NeedsRelabel(metas[prefix[i].0], prefix[i].0, prefix[i].1);
          assert labels[i] == prefix[i];
        }
      } else {
        forall i | 0 <= i < |labels| && labels[i].0 in metas
          ensures !NeedsRelabel(metas[labels[i].0], labels[i].0, labels[i].1)
        {
          if i < n {
            assert labels[i] == prefix[i];
          }
        }
      }
    }
  }

  /** A second pass over what the first one produced relabels nothing. */
  lemma RelabelAllSettles(metas: Metadatas, labels: Labels)
    requires DistinctKeys(labels)
    ensures !AnyRelabel(RelabelAll(metas, labels), labels)
    ensures RelabelAll(RelabelAll(metas, labels), labels) == RelabelAll(metas, labels)
  {
    var once := RelabelAll(metas, labels);
    forall i | 0 <= i < |labels| && labels[i].0 in once
      ensures !NeedsRelabel(once[labels[i].0], labels[i].0, labels[i].1)
    {
      RelabelAllAt(metas, labels, i);
    }
    AnyRelabelIff(once, labels);
    NoRelabelKeeps(once, labels);
  }

  /** When nothing needs relabelling, the metadata is kept as it is. */
  lemma {:induction false} NoRelabelKeeps(metas: Metadatas, labels: Labels)
    requires !AnyRelabel(metas, labels)
    ensures RelabelAll(metas, labels) == metas
    decreases |labels|
  {
    if |labels| > 0 {
      NoRelabelKeeps(metas, labels[..|labels| - 1]);
    }
  }

  // ---------------------------------------------------------------------
  // The loop over content types

  /** The update `configureFieldLabels` makes for one content type: none when
      its label map is empty, the content-manager service is missing, the
      configuration calls throw, or it has no stored metadata; otherwise the
      relabelled metadata, when some field needed it. */
  function Update(available: bool, failing: set<string>, configs: map<string, Metadatas>,
                  entry: (string, Labels)): (u: Option<Metadatas>)
    ensures u.Some? ==> entry.0 in configs && u.value == RelabelAll(configs[entry.0], entry.1)
    ensures u.Some? <==>
      (|entry.1| > 0 && available && entry.0 !in failing && entry.0 in configs && AnyRelabel(configs[entry.0], entry.1))
  {
    var (uid, labels) := entry;
    if |labels| == 0 || !available || uid in failing || uid !in configs then None
    else if AnyRelabel(configs[uid], labels) then Some(RelabelAll(configs[uid], labels))
    else None
  }

  /** The stored configurations after the loop over `cfgs`. */
  function After(available: bool, failing: set<string>, configs: map<string, Metadatas>,
                 cfgs: seq<(string, Labels)>): (r: map<string, Metadatas>)
    ensures r.Keys == configs.Keys
    decreases |cfgs|
  {
    if |cfgs| == 0 then configs
    else
      var before := After(available, failing, configs, cfgs[..|cfgs| - 1]);
      var u := Update(available, failing, before, cfgs[|cfgs| - 1]);
      if u.Some? then before[cfgs[|cfgs| - 1].0 := u.value] else before
  }

  /** The `updateConfiguration` calls of the loop over `cfgs`, in order. */
  function Calls(available: bool, failing: set<string>, configs: map<string, Metadatas>,
                 cfgs: seq<(string, Labels)>): seq<(string, Metadatas)>
    decreases |cfgs|
  {
    if |cfgs| == 0 then []
    else
      var before := After(available, failing, configs, cfgs[..|cfgs| - 1]);
      var u := Update(available, failing, before, cfgs[|cfgs| - 1]);
      Calls(available, failing, configs, cfgs[..|cfgs| - 1])
        + (if u.Some? then [(cfgs[|cfgs| - 1].0, u.value)] else [])
  }

  /** The content-manager plugin's configuration store as the bootstrap step
      sees it. */
  class ContentManager {
    /** Whether `plugin('content-manager')?.service('content-types')` exists. */
    var available: bool
    /** The stored metadata of each content type that has any. */
    var configurations: map<string, Metadatas>
    /** The content types whose configuration calls throw. */
    var failing: set<string>
    /** The `updateConfiguration` calls made so far. */
    var updates: seq<(string, Metadatas)>

    constructor (available: bool, configurations: map<string, Metadatas>, failing: set<string>)
      ensures this.available == available && this.configurations == configurations
      ensures this.failing == failing && updates == []
    {
      this.available := available;
      this.configurations := configurations;
      this.failing := failing;
      updates := [];
    }

    /** `configureFieldLabels`: one pass over the content types. */
    method ConfigureFieldLabels(labelConfigs: seq<(string, Labels)>)
      modifies this
      ensures available == old(available) && failing == old(failing)
      ensures configurations == After(available, failing, old(configurations), labelConfigs)
      ensures updates == old(updates) + Calls(available, failing, old(configurations), labelConfigs)
    {
      ghost var start := configurations;
      var k := 0;
      while k < |labelConfigs|
        invariant 0 <= k <= |labelConfigs|
        invariant available == old(available) && failing == old(failing)
        invariant configurations == After(available, failing, start, labelConfigs[..k])
        invariant updates == old(updates) + Calls(available, failing, start, labelConfigs[..k])
      {
        var (uid, labels) := labelConfigs[k];
        assert labelConfigs[..k + 1][..k] == labelConfigs[..k];
        if |labels| == 0 || !available || uid in failing || uid !in configurations {
          // skipped, or the failure is logged and the loop goes on
        } else {
          var updated, needsUpdate := RelabelFields(configurations[uid], labels);
          if needsUpdate {
            configurations := configurations[uid := updated];
            updates := updates + [(uid, updated)];
          }
        }
        k := k + 1;
      }
      assert labelConfigs[..k] == labelConfigs;
    }
  }

  // ---------------------------------------------------------------------
  // What a pass does, content type by content type

  function UidsOf(cfgs: seq<(string, Labels)>): set<string> {
    set i | 0 <= i < |cfgs| :: cfgs[i].0
  }

  predicate DistinctUids(cfgs: seq<(string, Labels)>) {
    forall i, j :: 0 <= i < j < |cfgs| ==> cfgs[i].0 != cfgs[j].0
  }

  lemma LastUidFresh(cfgs: seq<(string, Labels)>)
    requires DistinctUids(cfgs) && |cfgs| > 0
    ensures cfgs[|cfgs| - 1].0 !in UidsOf(cfgs[..|cfgs| - 1])
  {
    var n := |cfgs| - 1;
    forall j | 0 <= j < n ensures cfgs[..n][j].0 != cfgs[n].0 {
      assert cfgs[..n][j] == cfgs[j];
    }
  }

  /** Content types the pass does not name keep their configuration. */
  lemma {:induction false} AfterOutside(available: bool, failing: set<string>, configs: map<string, Metadatas>,
                                        cfgs: seq<(string, Labels)>, uid: string)
    requires uid !in UidsOf(cfgs) && uid in configs
    ensures After(available, failing, configs, cfgs)[uid] == configs[uid]
    decreases |cfgs|
  {
    if |cfgs| > 0 {
      var prefix := cfgs[..|cfgs| - 1];
      assert UidsOf(prefix) <= UidsOf(cfgs) by {
        forall x | x in UidsOf(prefix) ensures x in UidsOf(cfgs) {
          var i :| 0 <= i < |prefix| && prefix[i].0 == x;
          assert cfgs[i].0 == x;
        }
      }
      AfterOutside(available, failing, configs, prefix, uid);
      assert cfgs[|cfgs| - 1].0 in UidsOf(cfgs);
    }
  }

  /** With distinct content types, the one at `k` ends up with its own update
      computed on its original configuration. */
  lemma {:induction false} AfterAt(available: bool, failing: set<string>, configs: map<string, Metadatas>,
                                   cfgs: seq<(string, Labels)>, k: int)
    requires DistinctUids(cfgs) && 0 <= k < |cfgs| && cfgs[k].0 in configs
    ensures var u := Update(available, failing, configs, cfgs[k]);
      After(available, failing, configs, cfgs)[cfgs[k].0] == if u.Some? then u.value else configs[cfgs[k].0]
    decreases |cfgs|
  {
    var n := |cfgs| - 1;
    var prefix := cfgs[..n];
    var uid := cfgs[k].0;
    assert DistinctUids(prefix);
    if k == n {
      LastUidFresh(cfgs);
      AfterOutside(available, failing, configs, prefix, uid);
      var before := After(available, failing, configs, prefix);
      assert before[uid] == configs[uid];
      assert Update(available, failing, before, cfgs[n]) == Update(available, failing, configs, cfgs[n]);
    } else {
      AfterAt(available, failing, configs, prefix, k);
      assert prefix[k] == cfgs[k];
      assert cfgs[n].0 != uid;
    }
  }

  /** A second pass over what the first one stored, with the same service,
      makes no update and changes nothing. */
  lemma SecondPassNoUpdate(available: bool, failing: set<string>, configs: map<string, Metadatas>,
                           cfgs: seq<(string, Labels)>)
    requires DistinctUids(cfgs)
    requires forall i :: 0 <= i < |cfgs| ==> DistinctKeys(cfgs[i].1)
    ensures var once := After(available, failing, configs, cfgs);
      Calls(available, failing, once, cfgs) == [] && After(available, failing, once, cfgs) == once
  {
    var once := After(available, failing, configs, cfgs);
    SecondPassPrefix(available, failing, configs, cfgs, |cfgs|);
    assert cfgs[..|cfgs|] == cfgs;
  }

  lemma {:induction false} SecondPassPrefix(available: bool, failing: set<string>, configs: map<string, Metadatas>,
                                            cfgs: seq<(string, Labels)>, k: int)
    requires DistinctUids(cfgs)
    requires forall i :: 0 <= i < |cfgs| ==> DistinctKeys(cfgs[i].1)
    requires 0 <= k <= |cfgs|
    ensures var once := After(available, failing, configs, cfgs);
      Calls(available, failing, once, cfgs[..k]) == [] && After(available, failing, once, cfgs[..k]) == once
    decreases k
  {
    var once := After(available, failing, configs, cfgs);
    if k > 0 {
      SecondPassPrefix(available, failing, configs, cfgs, k - 1);
      assert cfgs[..k][..k - 1] == cfgs[..k - 1];
      var (uid, labels) := cfgs[k - 1];
      assert cfgs[..k][k - 1] == cfgs[k - 1];
      SettledAt(available, failing, configs, cfgs, k - 1);
    }
  }

  /** After the first pass, the content type at `k` needs no update. */
  lemma SettledAt(available: bool, failing: set<string>, configs: map<string, Metadatas>,
                  cfgs: seq<(string, Labels)>, k: int)
    requires DistinctUids(cfgs) && 0 <= k < |cfgs| && DistinctKeys(cfgs[k].1)
    ensures Update(available, failing, After(available, failing, configs, cfgs), cfgs[k]).None?
  {
    var (uid, labels) := cfgs[k];
    if uid in configs {
      AfterAt(available, failing, configs, cfgs, k);
      var u := Update(available, failing, configs, cfgs[k]);
      if u.Some? {
        RelabelAllSettles(configs[uid], labels);
      }
    }
  }

  lemma BlogPostKeysDistinct() ensures DistinctKeys(LabelConfigs[0].1) {}
  lemma PressItemKeysDistinct() ensures DistinctKeys(LabelConfigs[1].1) {}
  lemma GrantTrackKeysDistinct() ensures DistinctKeys(LabelConfigs[2].1) {}
  lemma InfoItemKeysDistinct() ensures DistinctKeys(LabelConfigs[3].1) {}
  lemma FinancialServicesKeysDistinct() ensures DistinctKeys(LabelConfigs[4].1) {}
  lemma LabelConfigUidsDistinct() ensures DistinctUids(LabelConfigs) {}

  /** Restarting the CMS after a bootstrap that stored its labels makes no
      further update. */
  lemma BootstrapSettles(available: bool, failing: set<string>, configs: map<string, Metadatas>)
    ensures var once := After(available, failing, configs, LabelConfigs);
      Calls(available, failing, once, LabelConfigs) == []
  {
    LabelConfigUidsDistinct();
    BlogPostKeysDistinct();
    PressItemKeysDistinct();
    GrantTrackKeysDistinct();
    InfoItemKeysDistinct();
    FinancialServicesKeysDistinct();
    assert |LabelConfigs| == 5;
    SecondPassNoUpdate(available, failing, configs, LabelConfigs);
  }
}
