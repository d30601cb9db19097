/** `empty_fractal` of fractal.c: a generator that draws nothing. */
module Empty {
  import opened Raster

  /** The raster, its dimensions and every sample are left as they were. */
  method EmptyFractal(img: Image)
    requires img.Valid()
    ensures img.Valid() && img.data[..] == old(img.data[..])
  {
  }
}
