/**
 * The ray caster of the renderer: `castRay`, which colours a ray red when
 * it hits any object of the scene and light blue otherwise, and `render`,
 * which casts one ray from the origin through every pixel of the window,
 * row by row from the top, each row from the left.
 */
module RayCaster {
  import opened Colors

  /**
   * A `glm::vec3` of the renderer: ray origins and directions, computed
   * numbers. The loaders' `Parsing.Vec3` is a different type, because a
   * loaded coordinate is kept as the text it was read from.
   */
  datatype Vec3 = Vec3(x: real, y: real, z: real)

  const SCREEN_WIDTH: nat := 800
  const SCREEN_HEIGHT: nat := 600

  /** Where every ray of the frame starts. */
  const ORIGIN: Vec3 := Vec3(0.0, 0.0, 0.0)

  const RED: Color := Rgba(255, 0, 0)
  const LIGHT_BLUE: Color := Rgba(173, 216, 230)

  /** Whether the ray meets any object of the scene; a ray in an empty scene meets nothing. */
  predicate AnyHit<O>(origin: Vec3, direction: Vec3, objects: seq<O>, rayIntersect: (O, Vec3, Vec3) -> bool): (hit: bool)
    ensures hit ==> objects != []
  {
    exists i :: 0 <= i < |objects| && rayIntersect(objects[i], origin, direction)
  }

  /** The colour of a ray: red when it meets an object, light blue otherwise. */
  function HitColor<O>(origin: Vec3, direction: Vec3, objects: seq<O>, rayIntersect: (O, Vec3, Vec3) -> bool): (c: Color)
    ensures c.a == OPAQUE
    ensures c == RED || c == LIGHT_BLUE
  {
    if AnyHit(origin, direction, objects, rayIntersect) then RED else LIGHT_BLUE
  }

  /**
   * `castRay`. The objects are examined in order and the first one the ray
   * meets ends the search; `examined` is how many were examined.
   */
  method CastRay<O>(rayOrigin: Vec3, rayDirection: Vec3, objects: seq<O>, rayIntersect: (O, Vec3, Vec3) -> bool)
    returns (color: Color, ghost examined: nat)
    ensures color == RED <==> AnyHit(rayOrigin, rayDirection, objects, rayIntersect)
    ensures color == LIGHT_BLUE <==> !AnyHit(rayOrigin, rayDirection, objects, rayIntersect)
    ensures color == HitColor(rayOrigin, rayDirection, objects, rayIntersect)
    ensures examined <= |objects|
    ensures forall j :: 0 <= j < examined - 1 ==> !rayIntersect(objects[j], rayOrigin, rayDirection)
    ensures color == RED ==> 0 < examined && rayIntersect(objects[examined - 1], rayOrigin, rayDirection)
    ensures color == LIGHT_BLUE ==> examined == |objects|
  {
    var i := 0;
    while i < |objects|
      invariant 0 <= i <= |objects|
      invariant forall j :: 0 <= j < i ==> !rayIntersect(objects[j], rayOrigin, rayDirection)
    {
      if rayIntersect(objects[i], rayOrigin, rayDirection) {
        return RED, i + 1;
      }
      i := i + 1;
    }
    return LIGHT_BLUE, i;
  }

  /** Adding objects to a scene never turns a red ray light blue. */
  lemma HitColorMoreObjects<O>(origin: Vec3, direction: Vec3, objects: seq<O>, more: seq<O>, rayIntersect: (O, Vec3, Vec3) -> bool)
    requires HitColor(origin, direction, objects, rayIntersect) == RED
    ensures HitColor(origin, direction, objects + more, rayIntersect) == RED
  {
    var i :| 0 <= i < |objects| && rayIntersect(objects[i], origin, direction);
    assert (objects + more)[i] == objects[i];
  }

  /** In an empty scene every ray is light blue. */
  lemma HitColorEmptyScene<O>(origin: Vec3, direction: Vec3, rayIntersect: (O, Vec3, Vec3) -> bool)
    ensures HitColor(origin, direction, [], rayIntersect) == LIGHT_BLUE
  {
  }

  /** A pixel drawn by `pixel(position, color)`. */
  datatype Pixel = Pixel(x: int, y: int, color: Color)

  /** Position of pixel `(x, y)` in the order `render` draws. */
  function Index(x: int, y: int): int {
    y * SCREEN_WIDTH + x
  }

  /**
   * The pixel `render` draws at `(x, y)`, for the ray direction that the
   * float mapping gives there: it sits at `(x, y)`, is opaque, and is red
   * exactly when the ray from the origin meets an object.
   */
  function PixelAt<O>(x: int, y: int, objects: seq<O>, rayIntersect: (O, Vec3, Vec3) -> bool, rayDirection: (int, int) -> Vec3): (p: Pixel)
    ensures p.x == x && p.y == y && p.color.a == OPAQUE
    ensures p.color == RED <==> AnyHit(ORIGIN, rayDirection(x, y), objects, rayIntersect)
    ensures p.color == LIGHT_BLUE <==> !AnyHit(ORIGIN, rayDirection(x, y), objects, rayIntersect)
  {
    Pixel(x, y, HitColor(ORIGIN, rayDirection(x, y), objects, rayIntersect))
  }

  /**
   * `render`. `rayDirection(x, y)` stands for the normalised direction the
   * float mapping of pixel `(x, y)` gives; `drawn` lists the pixels in the
   * order they are drawn.
   */
  method Render<O>(objects: seq<O>, rayIntersect: (O, Vec3, Vec3) -> bool, rayDirection: (int, int) -> Vec3)
    returns (drawn: seq<Pixel>)
    ensures |drawn| == SCREEN_WIDTH * SCREEN_HEIGHT
    ensures forall x, y :: 0 <= x < SCREEN_WIDTH && 0 <= y < SCREEN_HEIGHT ==>
              drawn[Index(x, y)] == PixelAt(x, y, objects, rayIntersect, rayDirection)
  {
    drawn := [];
    var y := 0;
    while y < SCREEN_HEIGHT
      invariant 0 <= y <= SCREEN_HEIGHT
      invariant |drawn| == Index(0, y)
      invariant forall x', y' :: 0 <= x' < SCREEN_WIDTH && 0 <= y' < y ==>
                  drawn[Index(x', y')] == PixelAt(x', y', objects, rayIntersect, rayDirection)
    {
      var x := 0;
      while x < SCREEN_WIDTH
        invariant 0 <= x <= SCREEN_WIDTH
        invariant |drawn| == Index(x, y)
        invariant forall x', y' :: 0 <= x' < SCREEN_WIDTH && 0 <= y' && Index(x', y') < Index(x, y) ==>
                    drawn[Index(x', y')] == PixelAt(x', y', objects, rayIntersect, rayDirection)
      {
        var pixelColor, _ := CastRay(ORIGIN, rayDirection(x, y), objects, rayIntersect);
        drawn := drawn + [Pixel(x, y, pixelColor)];
        x := x + 1;
      }
      y := y + 1;
    }
  }
}
