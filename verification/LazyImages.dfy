/** Deferred images: an image carrying a `data-src` attribute is watched by
    an intersection observer; when it scrolls into view the deferred address
    becomes its `src`, the attribute is removed and the image is no longer
    watched. */
module LazyImages {
  import opened Wrappers

  /** The part of an image the observer callback reads and writes. */
  datatype ImageState = ImageState(src: string, dataSrc: Option<string>, observed: bool)

  /** `img.dataset.src` is truthy: present and not the empty string. */
  predicate HasDeferredSource(s: ImageState) {
    s.dataSrc.Some? && s.dataSrc.value != ""
  }

  /** What the callback does to an image seen intersecting the viewport. */
  function Revealed(s: ImageState): (r: ImageState)
    ensures HasDeferredSource(s) ==> r.src == s.dataSrc.value && r.dataSrc == None && !r.observed
    ensures !HasDeferredSource(s) ==> r == s
    ensures !HasDeferredSource(r)
  {
    if HasDeferredSource(s) then ImageState(s.dataSrc.value, None, false) else s
  }

  /** The deferred address is loaded at most once: a second sighting of the
      same image changes nothing. */
  lemma RevealOnce(s: ImageState)
    ensures Revealed(Revealed(s)) == Revealed(s)
  {
  }

  /** One image element; `observed` says whether the observer still
      watches it. */
  class LazyImage {
    var src: string
    var dataSrc: Option<string>
    var observed: bool

    function State(): ImageState
      reads this
    {
      ImageState(src, dataSrc, observed)
    }

    constructor (initial: ImageState)
      ensures State() == initial
    {
      src, dataSrc, observed := initial.src, initial.dataSrc, initial.observed;
    }

    /** The callback's work for one entry whose target is this image. */
    method OnEntry(isIntersecting: bool)
      modifies this
      ensures State() == if isIntersecting then Revealed(old(State())) else old(State())
    {
      if isIntersecting && dataSrc.Some? && dataSrc.value != "" {
        src := dataSrc.value;
        dataSrc := None;
        observed := false;
      }
    }
  }

  datatype Entry = Entry(target: LazyImage, isIntersecting: bool)

  function Targets(entries: seq<Entry>): set<LazyImage> {
    set i | 0 <= i < |entries| :: entries[i].target
  }

  /** Some entry of the batch reports the image intersecting. */
  predicate SeenIntersecting(entries: seq<Entry>, img: LazyImage) {
    exists i :: 0 <= i < |entries| && entries[i].target == img && entries[i].isIntersecting
  }

  /** The observer callback, run over one batch of entries in order. The
      same image may appear in several entries; it ends revealed exactly
      when one of them reports it intersecting. */
  method HandleEntries(entries: seq<Entry>)
    modifies Targets(entries)
    ensures forall img :: img in Targets(entries) ==>
              img.State() == if SeenIntersecting(entries, img) then Revealed(old(img.State())) else old(img.State())
  {
    var i := 0;
    while i < |entries|
      invariant 0 <= i <= |entries|
      invariant forall img :: img in Targets(entries) ==>
                  img.State() == if SeenIntersecting(entries[..i], img) then Revealed(old(img.State())) else old(img.State())
    {
      var e := entries[i];
      assert e.target in Targets(entries);
      e.target.OnEntry(e.isIntersecting);
      forall img | img in Targets(entries)
        ensures SeenIntersecting(entries[..i+1], img) <==>
                  SeenIntersecting(entries[..i], img) || (img == e.target && e.isIntersecting)
      {
        assert entries[..i+1][i] == e;
        if SeenIntersecting(entries[..i+1], img) {
          var k :| 0 <= k < i + 1 && entries[..i+1][k].target == img && entries[..i+1][k].isIntersecting;
          if k < i {
            assert entries[..i][k] == entries[..i+1][k];
          }
        }
        if SeenIntersecting(entries[..i], img) {
          var k :| 0 <= k < i && entries[..i][k].target == img && entries[..i][k].isIntersecting;
          assert entries[..i+1][k] == entries[..i][k];
        }
      }
      RevealOnce(old(e.target.State()));
      i := i + 1;
    }
    assert entries[..i] == entries;
  }
}
