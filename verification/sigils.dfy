/** The rehydration-sigil codec the modelled code calls into.

    `build_rehydration_sigil` and `rehydrate_sigil` live in a module whose
    source is not part of this model, so both are parameters, bundled as a
    `Codec`. Two facts are assumed about them. `build` never raises: its
    type returns a plain string. Rehydrating the sigil built from one
    particular field triple returns that triple: this is the predicate
    `RehydratesTo`, which only the lemmas composing an encoder with a decoder
    take as a hypothesis, each for the one triple it builds. */
module Sigils {
  import opened Results

  /** The triple a rehydration sigil carries. */
  datatype Fields = Fields(glyphstream: string, integrity: string, structural: string)

  /** What `rehydrate_sigil` hands back: the three fields and a parsed tree. */
  datatype Rehydrated<A> = Rehydrated(fields: Fields, ast: A)

  datatype Codec<A> = Codec(
    build: (string, string, string) -> string,
    rehydrate: string -> Result<Rehydrated<A>>)

  /** `build_rehydration_sigil(g, ih, sh)` for a field triple. */
  function Build<A>(codec: Codec<A>, f: Fields): string {
    codec.build(f.glyphstream, f.integrity, f.structural)
  }

  /** Rehydrating the sigil built from `f` succeeds and returns `f`. Asked
      of one triple at a time, it leaves a codec free to reject other triples,
      such as ones whose glyphstream does not parse. */
  ghost predicate RehydratesTo<A>(codec: Codec<A>, f: Fields) {
    && codec.rehydrate(Build(codec, f)).Success?
    && codec.rehydrate(Build(codec, f)).value.fields == f
  }
}
