/** The HDR metadata blob of every CRTC, kept while its content is the same, and destroyed only once
    nothing on screen can name it. */
module HdrCaches {
  import opened Fnv
  import opened HdrMetadata
  import opened Options

  /** A kernel blob. Its id may come round again; its serial number does not. */
  datatype Blob = Blob(serial: nat, id: nat)

  datatype Entry = Entry(blob: Blob, hash: Hash)

  /** Where a blob is. */
  datatype Place = Active(crtc: nat) | Pending(index: nat) | Destroyed | Forgotten {
    predicate Gone() {
      Destroyed? || Forgotten?
    }
  }

  /** The cache holds the blobs it should, each once: a place is one of four things. */
  ghost predicate Conserved(active: map<nat, Entry>, pending: seq<Blob>, places: seq<Place>) {
    && (forall c :: c in active ==> active[c].blob.serial < |places| && places[active[c].blob.serial] == Active(c))
    && (forall i :: 0 <= i < |pending| ==> pending[i].serial < |places| && places[pending[i].serial] == Pending(i))
    && (forall s :: 0 <= s < |places| && places[s].Active? ==> places[s].crtc in active && active[places[s].crtc].blob.serial == s)
    && (forall s :: 0 <= s < |places| && places[s].Pending? ==> places[s].index < |pending| && pending[places[s].index].serial == s)
  }

  /** Nothing on screen names a blob that is gone. */
  ghost predicate ShownHeld(shown: map<nat, nat>, places: seq<Place>) {
    forall c :: c in shown ==> shown[c] < |places| && !places[shown[c]].Gone()
  }

  ghost predicate Hashed(active: map<nat, Entry>, sources: map<nat, Source>, little: bool) {
    sources.Keys == active.Keys && forall c :: c in active ==> active[c].hash == MetadataHash(sources[c], little)
  }

  /** Only blobs that were held have moved. */
  ghost predicate GoneStay(before: seq<Place>, after: seq<Place>) {
    |before| <= |after| && forall s :: 0 <= s < |before| && before[s].Gone() ==> after[s] == before[s]
  }

  /** A CRTC's blob joins the queue. */
  lemma Retire(active: map<nat, Entry>, pending: seq<Blob>, places: seq<Place>, shown: map<nat, nat>, crtc: nat)
    requires Conserved(active, pending, places) && ShownHeld(shown, places) && crtc in active
    ensures active[crtc].blob.serial < |places|
    ensures
      var blob := active[crtc].blob;
      var moved := places[blob.serial := Pending(|pending|)];
      && Conserved(active - {crtc}, pending + [blob], moved)
      && ShownHeld(shown, moved) && GoneStay(places, moved)
  {}

  /** A new blob becomes the one of a CRTC that has none. */
  lemma Adopt(active: map<nat, Entry>, pending: seq<Blob>, places: seq<Place>, shown: map<nat, nat>, crtc: nat, entry: Entry)
    requires Conserved(active, pending, places) && ShownHeld(shown, places)
    requires crtc !in active && entry.blob.serial == |places|
    ensures Conserved(active[crtc := entry], pending, places + [Active(crtc)])
    ensures ShownHeld(shown, places + [Active(crtc)]) && GoneStay(places, places + [Active(crtc)])
  {}

  lemma Unhash(active: map<nat, Entry>, sources: map<nat, Source>, little: bool, crtc: nat)
    requires Hashed(active, sources, little)
    ensures Hashed(active - {crtc}, sources - {crtc}, little)
  {
    hide MetadataHash;
  }

  ghost function Current(active: map<nat, Entry>): map<nat, nat> {
    map c | c in active :: active[c].blob.serial
  }

  lemma CurrentHeld(active: map<nat, Entry>, pending: seq<Blob>, places: seq<Place>)
    requires Conserved(active, pending, places)
    ensures ShownHeld(Current(active), places)
    ensures forall c :: c in active ==> active[c].blob.serial < |places| && places[active[c].blob.serial].Active?
  {}

  lemma Rehash(active: map<nat, Entry>, sources: map<nat, Source>, little: bool, crtc: nat, blob: Blob, src: Source)
    requires Hashed(active, sources, little)
    ensures Hashed(active[crtc := Entry(blob, MetadataHash(src, little))], sources[crtc := src], little)
  {
    hide MetadataHash;
  }

  class HdrMetadataCache {
    const little: bool
    var active: map<nat, Entry>
    var pending: seq<Blob>
    /** Where every blob ever made is, by serial number. */
    ghost var places: seq<Place>
    /** The blobs that what is on screen names, by CRTC. */
    ghost var shown: map<nat, nat>
    /** The metadata behind the active blobs. */
    ghost var sources: map<nat, Source>

    ghost predicate Valid()
      reads this
    {
      Conserved(active, pending, places) && ShownHeld(shown, places) && Hashed(active, sources, little)
    }

    constructor (little: bool)
      ensures Valid() && active == map[] && pending == [] && places == [] && shown == map[] && this.little == little
    {
      this.little := little;
      active, pending, places, shown, sources := map[], [], [], map[], map[];
    }

    function CurrentId(crtc: nat): nat
      reads this
    {
      if crtc in active then active[crtc].blob.id else 0
    }

    /** Clear a CRTC's metadata: its blob waits for the commit that drops it. */
    method Clear(crtc: nat) returns (id: nat)
      requires Valid()
      modifies this
      ensures Valid() && shown == old(shown) && id == CurrentId(crtc) == 0
      ensures active == old(active) - {crtc}
      ensures pending == old(pending) + (if crtc in old(active) then [old(active)[crtc].blob] else [])
      ensures |places| == |old(places)| && GoneStay(old(places), places)
    {
      hide Conserved, ShownHeld, Hashed;
      if crtc in active {
        var blob := active[crtc].blob;
        Retire(active, pending, places, shown, crtc);
        Unhash(active, sources, little, crtc);
        places := places[blob.serial := Pending(|pending|)];
        active, sources := active - {crtc}, sources - {crtc};
        pending := pending + [blob];
      }
      id := 0;
    }

    /** Set a CRTC's metadata. The blob is kept if the hash is; otherwise the factory's replaces it,
        and if that fails nothing changes. */
    method Set(crtc: nat, src: Source, made: Option<Blob>) returns (id: Option<nat>, built: bool)
      requires Valid()
      requires made.Some? ==> made.value.serial == |places|
      modifies this
      ensures Valid() && shown == old(shown)
      ensures built <==> !(crtc in old(active) && old(active)[crtc].hash == MetadataHash(src, little))
      ensures crtc in old(active) && OneFieldApart(old(sources)[crtc], src) ==> built
      ensures !built || made.None? ==> active == old(active) && pending == old(pending) && places == old(places) && sources == old(sources)
      ensures !built ==> id == Some(old(CurrentId(crtc)))
      ensures built && made.None? ==> id == None
      ensures built && made.Some? ==>
        && id == Some(made.value.id)
        && active == old(active)[crtc := Entry(made.value, MetadataHash(src, little))]
        && pending == old(pending) + (if crtc in old(active) then [old(active)[crtc].blob] else [])
        && |places| == |old(places)| + 1
      ensures GoneStay(old(places), places)
    {
      hide Conserved, ShownHeld, Hashed, MetadataHash, OneFieldApart;
      var hash := HashOf(src, little);
      if crtc in active {
        OneFieldRehashes(crtc, src);
      }
      if crtc in active && active[crtc].hash == hash {
        return Some(active[crtc].blob.id), false;
      }
      if made.None? {
        return None, true;
      }
      var blob := made.value;
      Rehash(active, sources, little, crtc, blob, src);
      ghost var others := active - {crtc};
      if crtc in active {
        var previous := active[crtc].blob;
        Retire(active, pending, places, shown, crtc);
        places := places[previous.serial := Pending(|pending|)];
        pending := pending + [previous];
      } else {
        assert others == active;
      }
      Adopt(others, pending, places, shown, crtc, Entry(blob, hash));
      assert others[crtc := Entry(blob, hash)] == active[crtc := Entry(blob, hash)];
      places := places + [Active(crtc)];
      active, sources := active[crtc := Entry(blob, hash)], sources[crtc := src];
      id, built := Some(blob.id), true;
    }

    lemma OneFieldRehashes(crtc: nat, src: Source)
      requires Valid() && crtc in active
      ensures OneFieldApart(sources[crtc], src) ==> active[crtc].hash != MetadataHash(src, little)
    {
      hide MetadataHash;
      if OneFieldApart(sources[crtc], src) {
        var f :| (f == Eotf || f.Word?) && SameBut(sources[crtc], src, f);
        OneFieldIff(sources[crtc], src, f, little);
      }
    }

    /** A commit carrying every CRTC's current blob landed. */
    ghost method CommitLands()
      requires Valid()
      modifies this`shown
      ensures Valid() && shown == Current(active)
      ensures forall c :: c in shown ==> shown[c] < |places| && places[shown[c]].Active?
    {
      hide Conserved, ShownHeld, Hashed;
      CurrentHeld(active, pending, places);
      shown := Current(active);
    }

    /** Destroy every blob queued: each once, and no current one. Nothing on screen loses its blob
        exactly when what is on screen names only current ones, as after a commit that landed. */
    method AcknowledgeCommitted() returns (destroyed: seq<Blob>)
      requires Valid()
      modifies this
      ensures ShownHeld(shown, places) <==> forall c :: c in old(shown) ==> old(places)[old(shown)[c]].Active?
      ensures Conserved(active, pending, places) && Hashed(active, sources, little) && shown == old(shown) && active == old(active) && pending == [] && destroyed == old(pending)
      ensures Destroys(destroyed, old(places), places)
    {
      destroyed := pending;
      places := seq(|places|, s requires 0 <= s < |places| reads this => if places[s].Pending? then Destroyed else places[s]);
      pending := [];
    }

    /** Give up every blob with the descriptor it was made on, destroying none. */
    method ClearForSessionLoss()
      requires Valid()
      modifies this
      ensures Valid() && active == map[] && pending == [] && shown == map[]
      ensures |places| == |old(places)| && GoneStay(old(places), places)
      ensures forall s :: 0 <= s < |places| ==> places[s] == if old(places)[s].Gone() then old(places)[s] else Forgotten
    {
      places := seq(|places|, s requires 0 <= s < |places| reads this => if places[s].Gone() then places[s] else Forgotten);
      active, pending, shown, sources := map[], [], map[], map[];
    }

    /** Destroy every blob. Nothing on screen loses its own exactly when nothing there names one. */
    method Flush()
      requires Valid()
      modifies this
      ensures active == map[] && pending == [] && shown == old(shown)
      ensures Conserved(active, pending, places) && Hashed(active, sources, little)
      ensures ShownHeld(shown, places) <==> shown == map[]
      ensures |places| == |old(places)| && GoneStay(old(places), places)
      ensures forall s :: 0 <= s < |places| ==> places[s] == if old(places)[s].Gone() then old(places)[s] else Destroyed
    {
      places := seq(|places|, s requires 0 <= s < |places| reads this => if places[s].Gone() then places[s] else Destroyed);
      active, pending, sources := map[], [], map[];
    }
  }

  /** Sources that differ in exactly one field the block carries. */
  ghost predicate OneFieldApart(a: Source, b: Source) {
    a != b && exists f: Field :: (f == Eotf || f.Word?) && SameBut(a, b, f)
  }

  /** Exactly the blobs of a list are destroyed, every one for the first time and once only. */
  ghost predicate Destroys(destroyed: seq<Blob>, before: seq<Place>, after: seq<Place>) {
    && |before| == |after|
    && (forall i :: 0 <= i < |destroyed| ==> destroyed[i].serial < |before| && !before[destroyed[i].serial].Gone())
    && (forall i, j :: 0 <= i < j < |destroyed| ==> destroyed[i].serial != destroyed[j].serial)
    && (forall i :: 0 <= i < |destroyed| ==> after[destroyed[i].serial].Destroyed?)
    && forall s :: 0 <= s < |before| && (forall i :: 0 <= i < |destroyed| ==> destroyed[i].serial != s) ==> after[s] == before[s]
  }
}
