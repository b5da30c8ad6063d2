/** The ways plot_convex_set_2 can stop without a result. */
module Errors {

  datatype Failure =
      /** `np.argmax` over an empty list: no constraint lies strictly on the negative side. */
    | NoNegativeAngle
      /** `np.argmin` over an empty list: no constraint lies strictly on the positive side. */
    | NoPositiveAngle
      /** `ccw` subscripts an intersection point that is `None` (a `TypeError`). */
    | MissingPoint
      /** The orientation check of the walk fails and the walker raises. */
    | BadOrientation
      /** No bounding-box value given: stacking the empty bound rows under `A` fails. */
    | NoBounds
}
