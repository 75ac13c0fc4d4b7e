/**
  The artifacts the content script reports to the service worker
  (background.js:20-26, 374-399, 474-490): one list per kind, an artifact
  kept once per id, the badge showing how many are kept. The object
  `capturedArtifacts` becomes class `Cache`; the badge and storage calls
  are appended to an effect log.
*/
module ArtifactCache {
  import opened Wrappers
  import opened Text

  /** The four keys of `capturedArtifacts`. */
  datatype Kind = Audio | Slides | Infographics | Notebooks

  /** `capturedArtifacts[type]` is an array exactly for the four keys. */
  function KindOf(t: string): (r: Option<Kind>)
    ensures r.Some? <==> t in {"audio", "slides", "infographics", "notebooks"}
  {
    if t == "audio" then Some(Audio)
    else if t == "slides" then Some(Slides)
    else if t == "infographics" then Some(Infographics)
    else if t == "notebooks" then Some(Notebooks)
    else None
  }

  /** A reported artifact: its id and the rest of its properties, which are
      kept as they came. */
  datatype Artifact = Artifact(id: string, details: string)

  /** An artifact with the time it was kept (`capturedAt`). */
  datatype Stored = Stored(artifact: Artifact, capturedAt: int)

  datatype Lists = Lists(audio: seq<Stored>, slides: seq<Stored>, infographics: seq<Stored>, notebooks: seq<Stored>) {
    function Get(k: Kind): seq<Stored> {
      match k
      case Audio => audio
      case Slides => slides
      case Infographics => infographics
      case Notebooks => notebooks
    }

    function With(k: Kind, l: seq<Stored>): Lists {
      match k
      case Audio => this.(audio := l)
      case Slides => this.(slides := l)
      case Infographics => this.(infographics := l)
      case Notebooks => this.(notebooks := l)
    }
  }

  const Empty := Lists([], [], [], [])

  /** A call into `chrome.action` or `chrome.storage`. */
  datatype Effect = SetBadge(text: string) | Persist(lists: Lists)

  predicate HasId(list: seq<Stored>, id: string) {
    exists i :: 0 <= i < |list| && list[i].artifact.id == id
  }

  /** No id occurs twice in a list. */
  predicate Distinct(list: seq<Stored>) {
    forall i, j :: 0 <= i < j < |list| ==> list[i].artifact.id != list[j].artifact.id
  }

  predicate AllDistinct(l: Lists) {
    Distinct(l.audio) && Distinct(l.slides) && Distinct(l.infographics) && Distinct(l.notebooks)
  }

  /** The sum `updateBadge` computes. */
  function Total(l: Lists): nat {
    |l.audio| + |l.slides| + |l.infographics| + |l.notebooks|
  }

  /** The badge text for `total`: its decimal digits, or "" for none. */
  function BadgeText(total: nat): string {
    if total > 0 then NatToString(total) else ""
  }

  /** `handleArtifactDetected`: an artifact of a known kind whose id is not
      in that kind's list yet is appended with the time `now`. */
  function AfterDetected(l: Lists, t: string, a: Artifact, now: int): Lists {
    match KindOf(t)
    case None => l
    case Some(k) => if HasId(l.Get(k), a.id) then l else l.With(k, l.Get(k) + [Stored(a, now)])
  }

  /** Ids stay distinct in every list. */
  lemma DetectedKeepsDistinct(l: Lists, t: string, a: Artifact, now: int)
    requires AllDistinct(l)
    ensures AllDistinct(AfterDetected(l, t, a, now))
  {
    match KindOf(t)
    case None =>
    case Some(k) =>
      if !HasId(l.Get(k), a.id) {
        AppendKeepsDistinct(l.Get(k), Stored(a, now));
      }
  }

  lemma AppendKeepsDistinct(list: seq<Stored>, x: Stored)
    requires Distinct(list) && !HasId(list, x.artifact.id)
    ensures Distinct(list + [x])
  {
    var r := list + [x];
    forall i, j | 0 <= i < j < |r|
      ensures r[i].artifact.id != r[j].artifact.id
    {
      if j == |list| {
        assert r[i] == list[i];
      }
    }
  }

  /** Reporting the same artifact again keeps the first copy and its time. */
  lemma DetectedIdempotent(l: Lists, t: string, a: Artifact, now: int, later: int)
    ensures AfterDetected(AfterDetected(l, t, a, now), t, a, later) == AfterDetected(l, t, a, now)
  {
    match KindOf(t)
    case None =>
    case Some(k) =>
      if !HasId(l.Get(k), a.id) {
        var added := l.Get(k) + [Stored(a, now)];
        assert l.With(k, added).Get(k) == added;
        assert added[|added| - 1].artifact.id == a.id;
      }
  }

  /** The total grows by one exactly when the kind is known and the id new
      to its list; the other kinds are untouched and the kept ones stay in
      front. */
  lemma DetectedTotal(l: Lists, t: string, a: Artifact, now: int)
    ensures var added := KindOf(t).Some? && !HasId(l.Get(KindOf(t).value), a.id);
            Total(AfterDetected(l, t, a, now)) == Total(l) + (if added then 1 else 0)
    ensures forall k :: KindOf(t) != Some(k) ==> AfterDetected(l, t, a, now).Get(k) == l.Get(k)
    ensures forall k :: l.Get(k) <= AfterDetected(l, t, a, now).Get(k)
  {
    match KindOf(t)
    case None =>
    case Some(k) =>
      if !HasId(l.Get(k), a.id) {
        var r := l.With(k, l.Get(k) + [Stored(a, now)]);
        assert r.Get(k) == l.Get(k) + [Stored(a, now)];
        assert forall j :: j != k ==> r.Get(j) == l.Get(j);
      }
  }

  /** The badge is blank exactly when nothing is kept, and otherwise reads
      back as the total. */
  lemma BadgeShowsTotal(total: nat)
    ensures BadgeText(total) == "" <==> total == 0
    ensures total > 0 ==> ParseInt(BadgeText(total), true) == Some(total as int)
  {
    if total > 0 {
      ParseIntOfNatToString(total, true);
    }
  }

  /** `Object.assign(capturedArtifacts, saved)` for a saved object whose
      keys are among the four: each key it holds replaces that list. */
  function Assign(l: Lists, saved: map<Kind, seq<Stored>>): (r: Lists)
    ensures forall k :: r.Get(k) == if k in saved then saved[k] else l.Get(k)
  {
    Lists(if Audio in saved then saved[Audio] else l.audio,
          if Slides in saved then saved[Slides] else l.slides,
          if Infographics in saved then saved[Infographics] else l.infographics,
          if Notebooks in saved then saved[Notebooks] else l.notebooks)
  }

  /** The object `Persist` writes to storage, read back. */
  function AsSaved(l: Lists): map<Kind, seq<Stored>> {
    map[Audio := l.audio, Slides := l.slides, Infographics := l.infographics, Notebooks := l.notebooks]
  }

  /** Restoring what was persisted yields the persisted lists, whatever the
      lists held before; restoring an object without keys changes nothing. */
  lemma RestorePersisted(before: Lists, persisted: Lists)
    ensures Assign(before, AsSaved(persisted)) == persisted
    ensures Assign(before, map[]) == before
  {
    var r := Assign(before, AsSaved(persisted));
    assert r.Get(Audio) == persisted.audio && r.Get(Slides) == persisted.slides;
    assert r.Get(Infographics) == persisted.infographics && r.Get(Notebooks) == persisted.notebooks;
    var e := Assign(before, map[]);
    assert e.Get(Audio) == before.audio && e.Get(Slides) == before.slides;
    assert e.Get(Infographics) == before.infographics && e.Get(Notebooks) == before.notebooks;
  }

  class Cache {
    var audio: seq<Stored>
    var slides: seq<Stored>
    var infographics: seq<Stored>
    var notebooks: seq<Stored>
    var effects: seq<Effect>

    function Value(): Lists
      reads this
    {
      Lists(audio, slides, infographics, notebooks)
    }

    constructor ()
      ensures Value() == Empty && effects == []
    {
      audio, slides, infographics, notebooks := [], [], [], [];
      effects := [];
    }

    /** `capturedArtifacts[type].some(a => a.id === artifact.id)`. */
    static method ContainsId(list: seq<Stored>, id: string) returns (found: bool)
      ensures found == HasId(list, id)
    {
      for i := 0 to |list|
        invariant !HasId(list[..i], id)
      {
        if list[i].artifact.id == id {
          assert list[i] == list[..i + 1][i];
          return true;
        }
        assert list[..i + 1] == list[..i] + [list[i]];
      }
      assert list[..|list|] == list;
      return false;
    }

    /** `updateBadge`'s `reduce` over the four lists. */
    method CountAll() returns (total: nat)
      ensures total == Total(Value())
    {
      var lists := [audio, slides, infographics, notebooks];
      total := 0;
      for i := 0 to |lists|
        invariant total == Sum(lists[..i])
      {
        assert lists[..i + 1] == lists[..i] + [lists[i]];
        SumAppend(lists[..i], lists[i]);
        total := total + |lists[i]|;
      }
      assert lists[..4] == lists;
      SumOfFour(audio, slides, infographics, notebooks);
    }

    /** `updateBadge`. */
    method UpdateBadge()
      modifies this`effects
      ensures effects == old(effects) + [SetBadge(BadgeText(Total(Value())))]
    {
      var total := CountAll();
      effects := effects + [SetBadge(if total > 0 then NatToString(total) else "")];
    }

    /** `handleArtifactDetected`: a new artifact is kept with the time
        `now`, then the badge is updated and the lists are stored; anything
        else changes nothing. */
    method HandleArtifactDetected(t: string, a: Artifact, now: int)
      modifies this
      ensures Value() == AfterDetected(old(Value()), t, a, now)
      ensures effects == old(effects) + (if Value() == old(Value()) then [] else [SetBadge(BadgeText(Total(Value()))), Persist(Value())])
    {
      var kind := KindOf(t);
      if kind.None? {
        return;
      }
      var list := Value().Get(kind.value);
      var exists_ := ContainsId(list, a.id);
      if !exists_ {
        var updated := list + [Stored(a, now)];
        match kind.value {
          case Audio => audio := updated;
          case Slides => slides := updated;
          case Infographics => infographics := updated;
          case Notebooks => notebooks := updated;
        }
        assert Value().Get(kind.value) == updated != list;
        UpdateBadge();
        effects := effects + [Persist(Value())];
      }
    }

    /** The restore at start-up: a saved object (`None` when storage holds
        none) is merged into the lists and the badge updated. */
    method Restore(saved: Option<map<Kind, seq<Stored>>>)
      modifies this
      ensures saved.None? ==> Value() == old(Value()) && effects == old(effects)
      ensures saved.Some? ==> Value() == Assign(old(Value()), saved.value)
      ensures saved.Some? ==> effects == old(effects) + [SetBadge(BadgeText(Total(Value())))]
    {
      if saved.None? {
        return;
      }
      var m := saved.value;
      if Audio in m {
        audio := m[Audio];
      }
      if Slides in m {
        slides := m[Slides];
      }
      if Infographics in m {
        infographics := m[Infographics];
      }
      if Notebooks in m {
        notebooks := m[Notebooks];
      }
      assert forall k :: Value().Get(k) == Assign(old(Value()), m).Get(k);
      UpdateBadge();
    }

    /** `clearArtifacts`: every list emptied, stored, and the badge blanked. */
    method ClearArtifacts()
      modifies this
      ensures Value() == Empty
      ensures effects == old(effects) + [Persist(Empty), SetBadge("")]
    {
      audio, slides, infographics, notebooks := [], [], [], [];
      effects := effects + [Persist(Value())];
      UpdateBadge();
    }
  }

  function Sum(lists: seq<seq<Stored>>): nat {
    if lists == [] then 0 else Sum(lists[..|lists| - 1]) + |lists[|lists| - 1]|
  }

  lemma SumOfFour(a: seq<Stored>, b: seq<Stored>, c: seq<Stored>, d: seq<Stored>)
    ensures Sum([a, b, c, d]) == |a| + |b| + |c| + |d|
  {
    SumAppend([], a);
    assert [] + [a] == [a];
    SumAppend([a], b);
    assert [a] + [b] == [a, b];
    SumAppend([a, b], c);
    assert [a, b] + [c] == [a, b, c];
    SumAppend([a, b, c], d);
    assert [a, b, c] + [d] == [a, b, c, d];
  }

  lemma SumAppend(lists: seq<seq<Stored>>, l: seq<Stored>)
    ensures Sum(lists + [l]) == Sum(lists) + |l|
  {
    assert (lists + [l])[..|lists|] == lists;
  }
}
