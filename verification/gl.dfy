/** The part of the OpenGL driver the shader wrapper talks to: shader and
    program objects named by nonzero handles, the sources and compile status
    of shaders, and the attachments and link status of programs. Compile and
    link outcomes come from the driver's compiler, which is not modelled:
    each is an input of the call that produces it. */
module GL {

  type Handle = nat

  datatype ShaderType = VertexShader | GeometryShader | FragmentShader

  datatype ShaderObject = ShaderObject(kind: ShaderType, source: string, compiled: bool)

  /** A program: the shaders attached to it, whether its last link
      succeeded, and the shaders that were attached when it was linked. */
  datatype ProgramObject = ProgramObject(attached: set<Handle>, linked: bool, linkedFrom: set<Handle>)

  /** Updating a map entry twice is updating it once. */
  lemma Overwrite<K, V>(m: map<K, V>, k: K, a: V, b: V)
    ensures m[k := a][k := b] == m[k := b]
  {
  }

  /** Writing back the value a map already holds changes nothing. */
  lemma Restore<K, V>(m: map<K, V>, k: K)
    requires k in m
    ensures m[k := m[k]] == m
  {
  }

  /** Removing two sets of keys one after the other is removing both. */
  lemma RemoveTwice<K, V>(m: map<K, V>, a: set<K>, b: set<K>)
    ensures m - a - b == m - (a + b)
  {
  }

  /** Removing keys the map does not hold makes no difference. */
  lemma RemoveAbsent<K, V>(m: map<K, V>, a: set<K>, z: set<K>)
    requires z !! m.Keys
    ensures m - a == m - (a - z)
  {
    assert (m - a).Keys == (m - (a - z)).Keys;
  }

  class Driver {
    var shaders: map<Handle, ShaderObject>
    var programs: map<Handle, ProgramObject>
    /** Every handle handed out so far is below this one. */
    var nextName: Handle

    ghost predicate Valid()
      reads this
    {
      0 < nextName &&
      (forall h :: h in shaders ==> 0 < h < nextName) &&
      (forall h :: h in programs ==> 0 < h < nextName) &&
      (forall p :: p in programs ==> programs[p].attached <= shaders.Keys)
    }

    /** The shader is attached to no program. */
    ghost predicate Unattached(h: Handle)
      reads this
    {
      forall p :: p in programs ==> h !in programs[p].attached
    }

    constructor ()
      ensures Valid() && shaders == map[] && programs == map[]
    {
      shaders, programs := map[], map[];
      nextName := 1;
    }

    /** glCreateShader: a new shader object of the given stage, with an
        empty source, under a handle that names no live object. */
    method CreateShader(kind: ShaderType) returns (h: Handle)
      requires Valid()
      modifies this
      ensures Valid()
      ensures h != 0 && h !in old(shaders) && h !in old(programs)
      ensures shaders == old(shaders)[h := ShaderObject(kind, "", false)] && programs == old(programs)
    {
      h := nextName;
      nextName := nextName + 1;
      shaders := shaders[h := ShaderObject(kind, "", false)];
    }

    /** glShaderSource: replaces the source of a live shader; any other
        handle is an error that changes nothing. */
    method ShaderSource(h: Handle, source: string)
      requires Valid()
      modifies this
      ensures Valid() && programs == old(programs) && nextName == old(nextName)
      ensures h in old(shaders) ==> shaders == old(shaders)[h := old(shaders)[h].(source := source)]
      ensures h !in old(shaders) ==> shaders == old(shaders)
    {
      if h in shaders {
        shaders := shaders[h := shaders[h].(source := source)];
      }
    }

    /** glCompileShader: records the compiler's verdict `accepts` as the
        compile status of a live shader. */
    method CompileShader(h: Handle, accepts: bool)
      requires Valid()
      modifies this
      ensures Valid() && programs == old(programs) && nextName == old(nextName)
      ensures h in old(shaders) ==> shaders == old(shaders)[h := old(shaders)[h].(compiled := accepts)]
      ensures h !in old(shaders) ==> shaders == old(shaders)
    {
      if h in shaders {
        shaders := shaders[h := shaders[h].(compiled := accepts)];
      }
    }

    /** glGetShaderiv with GL_COMPILE_STATUS. */
    function CompileStatus(h: Handle): (compiled: bool)
      reads this
      ensures compiled <==> h in shaders && shaders[h].compiled
    {
      h in shaders && shaders[h].compiled
    }

    /** glDeleteShader on a shader attached to no program: the shader is
        gone. Handle 0 and handles of no shader are ignored. */
    method DeleteShader(h: Handle)
      requires Valid() && Unattached(h)
      modifies this
      ensures Valid() && programs == old(programs) && nextName == old(nextName)
      ensures shaders == old(shaders) - {h}
    {
      if h in shaders {
        shaders := shaders - {h};
      }
    }

    /** glCreateProgram: a new, empty, unlinked program. */
    method CreateProgram() returns (p: Handle)
      requires Valid()
      modifies this
      ensures Valid()
      ensures p != 0 && p !in old(programs) && p !in old(shaders)
      ensures programs == old(programs)[p := ProgramObject({}, false, {})] && shaders == old(shaders)
    {
      p := nextName;
      nextName := nextName + 1;
      programs := programs[p := ProgramObject({}, false, {})];
    }

    /** glAttachShader: attaches a live shader to a live program; any other
        pair of handles (0 among them) is an error that changes nothing. */
    method AttachShader(p: Handle, h: Handle)
      requires Valid()
      modifies this
      ensures Valid() && shaders == old(shaders) && nextName == old(nextName)
      ensures p in old(programs) && h in old(shaders) ==>
        programs == old(programs)[p := old(programs)[p].(attached := old(programs)[p].attached + {h})]
      ensures !(p in old(programs) && h in old(shaders)) ==> programs == old(programs)
    {
      if p in programs && h in shaders {
        programs := programs[p := programs[p].(attached := programs[p].attached + {h})];
      }
    }

    /** glDetachShader: the shader is no longer attached to the program. */
    method DetachShader(p: Handle, h: Handle)
      requires Valid()
      modifies this
      ensures Valid() && shaders == old(shaders) && nextName == old(nextName)
      ensures p in old(programs) ==>
        programs == old(programs)[p := old(programs)[p].(attached := old(programs)[p].attached - {h})]
      ensures p !in old(programs) ==> programs == old(programs)
    {
      if p in programs {
        programs := programs[p := programs[p].(attached := programs[p].attached - {h})];
      }
    }

    /** glLinkProgram: records the linker's verdict `accepts` and the shaders
        the program was linked from. */
    method LinkProgram(p: Handle, accepts: bool)
      requires Valid()
      modifies this
      ensures Valid() && shaders == old(shaders) && nextName == old(nextName)
      ensures p in old(programs) ==>
        programs == old(programs)[p := old(programs)[p].(linked := accepts, linkedFrom := old(programs)[p].attached)]
      ensures p !in old(programs) ==> programs == old(programs)
    {
      if p in programs {
        programs := programs[p := programs[p].(linked := accepts, linkedFrom := programs[p].attached)];
      }
    }

    /** glGetProgramiv with GL_LINK_STATUS. */
    function LinkStatus(p: Handle): (linked: bool)
      reads this
      ensures linked <==> p in programs && programs[p].linked
    {
      p in programs && programs[p].linked
    }

    /** glDeleteProgram: the program is gone, and with it its attachments.
        Handle 0 and handles of no program are ignored. */
    method DeleteProgram(p: Handle)
      requires Valid()
      modifies this
      ensures Valid() && shaders == old(shaders) && nextName == old(nextName)
      ensures programs == old(programs) - {p}
    {
      if p in programs {
        programs := programs - {p};
      }
    }
  }
}
