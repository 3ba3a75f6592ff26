/** The static slide table the banner cycles through, and the image path a
    slide is displayed under. */
module Slides {

  /** One banner slide: an image file name and the caption markup shown with it. */
  datatype Slide = Slide(image: string, tagLine: string)

  /** Directory the deferred swap prepends to a slide's image file name. */
  const ImageDir: string := "./assets/images/slideshow/"

  /** The image source the banner shows for `slide`: the slideshow directory
      followed by the slide's own file name, nothing dropped or added. */
  function ImagePath(slide: Slide): (path: string)
    ensures |path| == |ImageDir| + |slide.image|
    ensures path[..|ImageDir|] == ImageDir
    ensures path[|ImageDir|..] == slide.image
  {
    ImageDir + slide.image
  }

  /** The four slides the page starts the carousel with. */
  const ShippedSlides: seq<Slide> := [
    Slide("slide1.jpg", "Impressions tous formats <span>en boutique et en ligne</span>"),
    Slide("slide2.jpg", "Tirages haute définition grand format <span>pour vos bureaux et events</span>"),
    Slide("slide3.jpg", "Grand choix de couleurs <span>de CMJN aux pantones</span>"),
    Slide("slide4.png", "Autocollants <span>avec découpe laser sur mesure</span>")
  ]
}
