/** The gene names of the direct bitmap encodings (src/puredirect.cc,
    src/layered.cc, src/direct.cc, src/purelayered.cc), one constructor
    per name pattern. Names built from the same pattern and the same
    numbers are the same gene; different patterns never collide. */
module DirectKeys {

  datatype DKey =
    | E(i: int)                           // "E<i>": unit i exists (Miller)
    | R(i: int)                           // "R<i>": input i exists
    | H(i: int)                           // "H<i>": hidden unit i exists
    | W(i: int, j: int)                   // "W<i>-<j>"
    | WX(i: int, j: int)                  // "WX<i>-<j>"
    | WV(i: int, j: int)                  // "WV<i>-<j>"
    | LayerWX(layer: int, i: int, j: int) // "WX<layer>:<i>-<j>"
    | LayerW(layer: int, i: int, j: int)  // "W<layer>:<i>-<j>"
}
