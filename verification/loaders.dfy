/** The two deferred-source loaders: `loadVideo` of the video controller and
    `loadIframe` of the lazy iframe loader. */
module Loaders {
  import opened Wrappers

  /** An iframe as the loaders see it: `data-src` (None when the attribute
      is absent), the `src` property ("" when unset) and the `loaded` class. */
  datatype Frame = Frame(dataSrc: Option<string>, src: string, loaded: bool)

  /** JavaScript truthiness of an optional string: present and non-empty. */
  predicate Truthy(s: Option<string>) {
    s.Some? && s.value != ""
  }

  const Autoplay := "&autoplay=1"

  /** `loadVideo`: a frame with a deferred source and no source yet gets the
      deferred source plus the autoplay flag and is marked loaded; any other
      frame is left as it is. */
  function LoadVideo(f: Frame): (r: Frame)
    ensures r.dataSrc == f.dataSrc
    ensures Truthy(f.dataSrc) && f.src == "" ==> r.src == f.dataSrc.value + Autoplay && r.loaded
    ensures !(Truthy(f.dataSrc) && f.src == "") ==> r == f
    ensures f.loaded ==> r.loaded
  {
    if Truthy(f.dataSrc) && f.src == "" then f.(src := f.dataSrc.value + Autoplay, loaded := true)
    else f
  }

  /** `loadIframe`: a frame with a deferred source gets it as its source, is
      marked loaded and loses the deferred source; any other frame is left
      as it is. */
  function LoadIframe(f: Frame): (r: Frame)
    ensures Truthy(f.dataSrc) ==> r == Frame(None, f.dataSrc.value, true)
    ensures !Truthy(f.dataSrc) ==> r == f
    ensures !Truthy(r.dataSrc)
  {
    if Truthy(f.dataSrc) then Frame(None, f.dataSrc.value, true)
    else f
  }

  /** A second `loadVideo` is a no-op, because the first leaves a non-empty
      source behind. */
  lemma LoadVideoIdempotent(f: Frame)
    ensures LoadVideo(LoadVideo(f)) == LoadVideo(f)
  {
    if Truthy(f.dataSrc) && f.src == "" {
      assert |LoadVideo(f).src| >= |Autoplay| > 0;
    }
  }

  /** A second `loadIframe` is a no-op, because the first removes the
      deferred source. */
  lemma LoadIframeIdempotent(f: Frame)
    ensures LoadIframe(LoadIframe(f)) == LoadIframe(f)
  {
  }

  /** The video frame also carries the lazy-iframe class, so both loaders can
      reach it. After the lazy loader, `loadVideo` finds no deferred source
      and does nothing. */
  lemma VideoAfterLazyLoad(f: Frame)
    ensures LoadVideo(LoadIframe(f)) == LoadIframe(f)
  {
  }

  /** The other order: the lazy loader overwrites the autoplay source with
      the bare deferred source. */
  lemma LazyLoadAfterVideo(f: Frame)
    requires Truthy(f.dataSrc)
    ensures LoadIframe(LoadVideo(f)) == Frame(None, f.dataSrc.value, true)
  {
  }
}
